/** A file system shared with an environment that may change any file between any two steps, and the durable
    operations the apply protocols use on it: internal/filesystem/mutation.go as those protocols see it.
    A fingerprint stands for the content itself.
 */
module SharedDisk {
  import opened Basics
  import opened Wrappers

  /** What a backup store committed. */
  datatype Manifest = Manifest(id: string, path: string, operation: string, content: string)

  /** What the program saw and did. A write records what the file really held just before it, or none where
      there was no file. */
  datatype Event =
    | Observed(path: string, content: string)
    | SeenAbsent(path: string)
    | Captured(manifest: Manifest)
    | BackupWritten(path: string, content: string)
    | BackupRolledBack(path: string, restored: Option<string>)
    | Wrote(path: string, before: Option<string>, after: string)

  /** Everything that happens to the files: the environment leaves them in some state, or the program acts. */
  datatype Step = Environment(files: map<string, string>) | Did(event: Event)

  function Lookup(files: map<string, string>, path: string): Option<string> {
    if path in files then Some(files[path]) else None
  }

  function Effect(files: map<string, string>, event: Event): map<string, string> {
    match event
    case BackupWritten(path, content) => files[path := content]
    case BackupRolledBack(path, restored) => if restored.Some? then files[path := restored.value] else files - {path}
    case Wrote(path, _, after) => files[path := after]
    case _ => files
  }

  function After(files: map<string, string>, step: Step): map<string, string> {
    match step
    case Environment(changed) => changed
    case Did(event) => Effect(files, event)
  }

  /** The files after some steps. */
  function FilesAfter(start: map<string, string>, trace: seq<Step>): map<string, string> {
    if trace == [] then start else After(FilesAfter(start, trace[..|trace| - 1]), trace[|trace| - 1])
  }

  /** What the program did, without the environment. */
  function Events(trace: seq<Step>): seq<Event> {
    if trace == [] then []
    else Events(trace[..|trace| - 1]) + if trace[|trace| - 1].Did? then [trace[|trace| - 1].event] else []
  }

  /** An event tells the truth about the files it happens on. A rolled back backup restores what the backup
      had replaced. */
  ghost predicate Holds(start: map<string, string>, trace: seq<Step>, event: Event) {
    match event
    case Observed(path, content) => Lookup(FilesAfter(start, trace), path) == Some(content)
    case SeenAbsent(path) => Lookup(FilesAfter(start, trace), path) == None
    case Wrote(path, before, _) => Lookup(FilesAfter(start, trace), path) == before
    case BackupRolledBack(path, restored) => exists j :: 0 <= j < |trace| && Replaces(start, trace, j, path, restored)
    case Captured(_) => true
    case BackupWritten(_, _) => true
  }

  /** Step `j` wrote a backup to a path that held `restored`. */
  ghost predicate Replaces(start: map<string, string>, trace: seq<Step>, j: nat, path: string, restored: Option<string>)
    requires j < |trace|
  {
    && trace[j].Did? && trace[j].event.BackupWritten? && trace[j].event.path == path
    && Lookup(FilesAfter(start, trace[..j]), path) == restored
  }

  lemma ReplacesLater(start: map<string, string>, trace: seq<Step>, more: seq<Step>, j: nat, path: string,
                      restored: Option<string>)
    requires trace <= more && j < |trace| && Replaces(start, trace, j, path, restored)
    ensures Replaces(start, more, j, path, restored)
  {
    assert more[..j] == trace[..j];
  }

  ghost predicate Honest(start: map<string, string>, trace: seq<Step>) {
    forall k | 0 <= k < |trace| && trace[k].Did? :: Holds(start, trace[..k], trace[k].event)
  }

  lemma HonestStep(start: map<string, string>, trace: seq<Step>, step: Step)
    requires Honest(start, trace) && (step.Did? ==> Holds(start, trace, step.event))
    ensures Honest(start, trace + [step])
    ensures FilesAfter(start, trace + [step]) == After(FilesAfter(start, trace), step)
    ensures Events(trace + [step]) == Events(trace) + if step.Did? then [step.event] else []
  {
    var more := trace + [step];
    assert more[..|trace|] == trace;
    hide Holds, Effect;
    forall k | 0 <= k < |more| && more[k].Did? ensures Holds(start, more[..k], more[k].event) {
      assert more[..k] == trace[..k];
    }
  }

  lemma {:induction false} EventsOfConcat(before: seq<Step>, after: seq<Step>)
    ensures Events(before + after) == Events(before) + Events(after)
  {
    if after == [] {
      assert before + after == before;
    } else {
      EventsOfConcat(before, after[..|after| - 1]);
      assert (before + after)[..|before + after| - 1] == before + after[..|after| - 1];
    }
  }

  /** Where a step of a trace stands in its events, and what it does to the files. */
  lemma StepInEvents(start: map<string, string>, trace: seq<Step>, from: nat, k: nat)
    requires from <= k < |trace| && trace[k].Did? && Honest(start, trace)
    ensures var events, i := Events(trace[from..]), |Events(trace[from..k])|;
            i < |events| && events[i] == trace[k].event && events[..i] == Events(trace[from..k])
    ensures FilesAfter(start, trace[..k + 1]) == Effect(FilesAfter(start, trace[..k]), trace[k].event)
    ensures Holds(start, trace[..k], trace[k].event)
  {
    assert trace[..k + 1][..k] == trace[..k];
    assert trace[from..] == trace[from..k] + ([trace[k]] + trace[k + 1..]);
    hide FilesAfter, Holds, Effect;
    assert [trace[k]][..0] == [];
    assert Events([trace[k]]) == [trace[k].event];
    hide Events;
    EventsOfConcat([trace[k]], trace[k + 1..]);
    EventsOfConcat(trace[from..k], [trace[k]] + trace[k + 1..]);
  }

  /** The events of the last part of a trace. */
  lemma EventsSince(before: seq<Step>, trace: seq<Step>, events: seq<Event>)
    requires before <= trace && Events(trace) == Events(before) + events
    ensures Events(trace[|before|..]) == events
  {
    hide Events;
    EventsOfConcat(before, trace[|before|..]);
    assert before + trace[|before|..] == trace;
    assert Events(before) + events == Events(before) + Events(trace[|before|..]);
    assert (Events(before) + events)[|Events(before)|..] == events;
  }

  /** The effects on a file of a replacement that succeeded: its adjacent backup first. */
  function ReplacementEvents(path: string, expected: string, data: string, bak: Option<string>): seq<Event> {
    (if bak.Some? then [BackupWritten(bak.value, expected)] else []) + [Wrote(path, Some(expected), data)]
  }

  /** The files after a replacement. */
  function WithReplacement(files: map<string, string>, path: string, expected: string, data: string,
                           bak: Option<string>):
    map<string, string> {
    (if bak.Some? then files[bak.value := expected] else files)[path := data]
  }

  /** The effects of a replacement that failed before the file was written. */
  ghost predicate Abandoned(expected: string, bak: Option<string>, events: seq<Event>) {
    || events == []
    || (bak.Some? && events == [BackupWritten(bak.value, expected)])
    || (bak.Some? && exists restored :: events == [BackupWritten(bak.value, expected), BackupRolledBack(bak.value, restored)])
  }

  function CapturedAll(manifests: seq<Manifest>): seq<Event> {
    seq(|manifests|, k requires 0 <= k < |manifests| => Captured(manifests[k]))
  }

  lemma CapturedOneMore(log: seq<Event>, manifests: seq<Manifest>, manifest: Manifest)
    ensures log + CapturedAll(manifests + [manifest]) == log + CapturedAll(manifests) + [Captured(manifest)]
  {
    assert CapturedAll(manifests + [manifest]) == CapturedAll(manifests) + [Captured(manifest)];
  }

  /** The manifests are backups of the files, path by path, as far as there are both. */
  ghost predicate CapturesSome(files: map<string, string>, paths: seq<string>, operation: string, manifests: seq<Manifest>) {
    forall j | 0 <= j < |paths| && j < |manifests| ::
      && ValidPreviewID(manifests[j].id) && paths[j] in files
      && manifests[j] == Manifest(manifests[j].id, paths[j], operation, files[paths[j]])
  }

  ghost predicate CapturesAll(files: map<string, string>, paths: seq<string>, operation: string, manifests: seq<Manifest>) {
    |manifests| >= |paths| && CapturesSome(files, paths, operation, manifests)
  }

  class Disk {
    /** What the environment makes of the files before each step, which steps fail, and what the backup
        store commits when asked: all arbitrary. */
    const interfere: (nat, map<string, string>) -> map<string, string>
    const fails: nat -> bool
    const commits: (nat, map<string, string>, string, string) -> Option<Manifest>
    const batchSize: (nat, nat) -> nat
    ghost const start: map<string, string>
    var files: map<string, string>
    var clock: nat
    ghost var trace: seq<Step>
    ghost var log: seq<Event>

    constructor (interfere: (nat, map<string, string>) -> map<string, string>, fails: nat -> bool,
                 commits: (nat, map<string, string>, string, string) -> Option<Manifest>, batchSize: (nat, nat) -> nat,
                 files: map<string, string>)
      ensures this.interfere == interfere && this.fails == fails && this.commits == commits && this.batchSize == batchSize
      ensures Valid() && this.files == start == files && trace == []
    {
      this.interfere, this.fails, this.commits, this.batchSize := interfere, fails, commits, batchSize;
      this.start, this.files := files, files;
      clock, trace, log := 0, [], [];
    }

    /** The trace accounts for the files, what it says was true when it happened, and the log is its events. */
    ghost predicate Valid()
      reads this
    {
      files == FilesAfter(start, trace) && Honest(start, trace) && log == Events(trace)
    }

    /** Nothing interferes. */
    ghost predicate Quiet() {
      forall t: nat, f: map<string, string> :: interfere(t, f) == f
    }

    /** Nothing fails after some step. */
    ghost predicate WorksAfter(at: nat) {
      forall t: nat | t > at :: !fails(t)
    }

    /** Nothing interferes and nothing fails. */
    ghost predicate Calm() {
      Quiet() && WorksAfter(0)
    }

    /** The backup store commits what it is asked for. */
    ghost predicate StoreWorks() {
      && (forall t: nat, f: map<string, string>, path, operation | path in f ::
            var m := commits(t, f, path, operation);
            m.Some? && ValidPreviewID(m.value.id) && m.value == Manifest(m.value.id, path, operation, f[path]))
      && forall t: nat, n: nat :: batchSize(t, n) >= n
    }

    /** The environment takes its turn. The next operation may fail. */
    method Turn() returns (ok: bool)
      requires Valid()
      modifies this`files, this`clock, this`trace
      ensures Valid() && old(trace) <= trace && clock == old(clock) + 1
      ensures WorksAfter(old(clock)) ==> ok
      ensures Quiet() ==> files == old(files)
      ensures Calm() ==> ok && files == old(files)
    {
      clock := clock + 1;
      files := interfere(clock, files);
      HonestStep(start, trace, Environment(files));
      trace := trace + [Environment(files)];
      ok := !fails(clock);
    }

    /** The program acts, on files that are as the event says. */
    method Perform(event: Event)
      requires Valid() && Holds(start, trace, event)
      modifies this`files, this`trace, this`log
      ensures Valid() && trace == old(trace) + [Did(event)]
      ensures files == Effect(old(files), event) && log == old(log) + [event]
    {
      HonestStep(start, trace, Did(event));
      files, trace, log := Effect(files, event), trace + [Did(event)], log + [event];
    }

    /** Capture the content of a regular file. */
    method Read(path: string) returns (content: Option<string>)
      requires Valid()
      modifies this
      ensures Valid() && old(trace) <= trace && clock == old(clock) + 1
      ensures log == old(log) + if content.Some? then [Observed(path, content.value)] else []
      ensures content.Some? ==> content == Lookup(files, path)
      ensures Quiet() ==> files == old(files)
      ensures Quiet() && WorksAfter(old(clock)) ==> content == Lookup(old(files), path)
      ensures Calm() ==> files == old(files) && content == Lookup(old(files), path)
    {
      var ok := Turn();
      if !ok || path !in files {
        return None;
      }
      content := Some(files[path]);
      Perform(Observed(path, files[path]));
    }

    /** Whether a path is free. */
    method IsAbsent(path: string) returns (absent: Option<bool>)
      requires Valid()
      modifies this
      ensures Valid() && old(trace) <= trace && clock == old(clock) + 1
      ensures log == old(log) + if absent == Some(true) then [SeenAbsent(path)] else []
      ensures absent.Some? ==> (absent.value <==> path !in files)
      ensures Quiet() ==> files == old(files)
      ensures Quiet() && WorksAfter(old(clock)) ==> absent == Some(path !in files)
      ensures Calm() ==> files == old(files) && absent == Some(path !in files)
    {
      var ok := Turn();
      if !ok {
        return None;
      }
      absent := Some(path !in files);
      if path !in files {
        Perform(SeenAbsent(path));
      }
    }

    /** Ask the backup store for a backup of a file. An error can come with a committed manifest. */
    method Capture(path: string, operation: string) returns (manifest: Option<Manifest>, failed: bool)
      requires Valid()
      modifies this
      ensures Valid() && old(trace) <= trace
      ensures log == old(log) + if manifest.Some? then [Captured(manifest.value)] else []
      ensures Quiet() ==> files == old(files)
      ensures Calm() ==> !failed
      ensures Calm() && StoreWorks() && path in files ==>
                manifest.Some? && ValidPreviewID(manifest.value.id)
                && manifest.value == Manifest(manifest.value.id, path, operation, files[path])
    {
      var ok := Turn();
      manifest := commits(clock, files, path, operation);
      failed := !ok;
      if manifest.Some? {
        Perform(Captured(manifest.value));
      }
    }

    /** Ask for several backups at once. Any number of manifests can come back. */
    method CaptureBatch(paths: seq<string>, operation: string) returns (manifests: seq<Manifest>, failed: bool)
      requires Valid()
      modifies this
      ensures Valid() && old(trace) <= trace
      ensures log == old(log) + CapturedAll(manifests)
      ensures Quiet() ==> files == old(files)
      ensures Calm() && StoreWorks() && (forall j | 0 <= j < |paths| :: paths[j] in old(files)) ==>
                CapturesAll(old(files), paths, operation, manifests)
    {
      manifests, failed := [], false;
      assert log == old(log) + CapturedAll([]);
      hide Valid;
      var wanted := batchSize(clock, |paths|);
      while |manifests| < wanted && !failed
        invariant Valid() && old(trace) <= trace
        invariant log == old(log) + CapturedAll(manifests)
        invariant Quiet() ==> files == old(files)
        invariant Calm() && StoreWorks() && (forall j | 0 <= j < |paths| :: paths[j] in old(files)) ==>
                    && (failed ==> |manifests| >= |paths|)
                    && CapturesSome(old(files), paths, operation, manifests)
        decreases wanted - |manifests|, !failed
      {
        var j := |manifests|;
        var manifest, error := Capture(if j < |paths| then paths[j] else [], operation);
        if manifest.None? {
          failed := true;
        } else {
          CapturedOneMore(old(log), manifests, manifest.value);
          manifests := manifests + [manifest.value];
          failed := error;
        }
      }
    }

    /** Replace a file's content if it still is what is expected, keeping the old content in an adjacent
        backup if one is asked for. An error can come after the file was written. */
    method ReplaceFile(path: string, data: string, expected: string, bak: Option<string>)
      returns (ok: bool, wrote: bool)
      requires Valid()
      modifies this
      ensures Valid() && old(trace) <= trace
      ensures ok ==> wrote
      ensures wrote ==> log == old(log) + ReplacementEvents(path, expected, data, bak)
      ensures !wrote ==> exists events :: Abandoned(expected, bak, events) && log == old(log) + events
      ensures Quiet() && wrote ==> files == WithReplacement(old(files), path, expected, data, bak)
      ensures Quiet() && !wrote && bak.None? ==> files == old(files)
      ensures Calm() && Lookup(old(files), path) == Some(expected) && bak != Some(path) ==> ok
    {
      wrote := false;
      ghost var before := log;
      assert log == before + [];
      hide Valid, WithReplacement, Replaces, Calm, Quiet, Lookup;
      CalmIsQuiet();
      Replacement(old(files), path, expected, data, bak);
      var staged := Turn();
      if !staged || bak == Some(path) {
        return false, wrote;
      }
      var previous: Option<string> := None;
      ghost var at := 0;
      if bak.Some? {
        var kept;
        kept, previous, at := KeepOld(path, expected, bak.value);
        if !kept {
          return false, wrote;
        }
      }
      ghost var keptTrace := trace;
      ok, wrote := Put(path, data, Some(expected));
      if !wrote && bak.Some? {
        ReplacesLater(start, keptTrace, trace, at, bak.value, previous);
        RollBack(bak.value, previous, at);
        assert Abandoned(expected, bak, log[|before|..]) && log == before + log[|before|..];
      }
    }

    /** Write a file if it still is what is expected: some content, or nothing there. An error can come after
        the file was written. */
    method Put(path: string, data: string, expected: Option<string>) returns (ok: bool, wrote: bool)
      requires Valid()
      modifies this
      ensures Valid() && old(trace) <= trace
      ensures ok ==> wrote
      ensures log == old(log) + if wrote then [Wrote(path, expected, data)] else []
      ensures Quiet() ==> files == if wrote then old(files)[path := data] else old(files)
      ensures Calm() && Lookup(old(files), path) == expected ==> ok
    {
      wrote := false;
      hide Valid, Holds;
      var ready := Turn();
      if !ready || Lookup(files, path) != expected {
        return false, wrote;
      }
      CanWrite(path, data);
      Perform(Wrote(path, expected, data));
      wrote := true;
      ok := Turn();
    }

    lemma Replacement(files: map<string, string>, path: string, expected: string, data: string, bak: Option<string>)
      ensures WithReplacement(files, path, expected, data, bak)
           == (if bak.Some? then Effect(files, BackupWritten(bak.value, expected)) else files)[path := data]
      ensures bak.Some? && bak.value != path ==>
                Lookup(Effect(files, BackupWritten(bak.value, expected)), path) == Lookup(files, path)
    {
    }

    /** Copy the file, if it holds the expected content, to the adjacent backup. What the backup held is kept. */
    method KeepOld(path: string, expected: string, bak: string)
      returns (kept: bool, previous: Option<string>, ghost at: nat)
      requires Valid()
      modifies this
      ensures Valid() && old(trace) <= trace
      ensures log == old(log) + if kept then [BackupWritten(bak, expected)] else []
      ensures kept ==> at < |trace| && Replaces(start, trace, at, bak, previous)
      ensures Quiet() ==> files == if kept then Effect(old(files), BackupWritten(bak, expected)) else old(files)
      ensures Calm() && Lookup(old(files), path) == Some(expected) ==> kept
    {
      hide Valid;
      at := 0;
      var copied := Lookup(files, path);
      if copied != Some(expected) {
        return false, None, at;
      }
      previous := Lookup(files, bak);
      kept := Turn();
      if !kept || Lookup(files, bak) != previous {
        return false, previous, at;
      }
      at := |trace|;
      FilesNow();
      ghost var so := trace;
      Perform(BackupWritten(bak, copied.value));
      assert trace[..at] == so;
    }

    /** Put back what the adjacent backup held, if that works. */
    method RollBack(bak: string, previous: Option<string>, ghost at: nat)
      requires Valid() && at < |trace| && Replaces(start, trace, at, bak, previous)
      modifies this
      ensures Valid() && old(trace) <= trace
      ensures log == old(log) || log == old(log) + [BackupRolledBack(bak, previous)]
    {
      hide Valid, Replaces;
      var ready := Turn();
      if ready {
        ReplacesLater(start, old(trace), trace, at, bak, previous);
        Perform(BackupRolledBack(bak, previous));
      }
    }

    lemma FilesNow()
      requires Valid()
      ensures files == FilesAfter(start, trace)
    {
    }

    lemma LogIsEvents()
      requires Valid()
      ensures log == Events(trace)
    {
    }

    /** A write that records what the file holds tells the truth. */
    lemma CanWrite(path: string, data: string)
      requires Valid()
      ensures Holds(start, trace, Wrote(path, Lookup(files, path), data))
    {
    }

    lemma CalmIsQuiet()
      ensures Calm() ==> Quiet()
    {
    }

    /** Install a file where there is none. It is never put over one that appears. */
    method InstallNew(path: string, data: string) returns (ok: bool, wrote: bool)
      requires Valid()
      modifies this
      ensures Valid() && old(trace) <= trace
      ensures ok ==> wrote
      ensures log == old(log) + if wrote then [Wrote(path, None, data)] else []
      ensures Quiet() ==> files == if wrote then old(files)[path := data] else old(files)
      ensures Calm() && path !in old(files) ==> ok
    {
      hide Valid;
      ok, wrote := Put(path, data, None);
    }
  }

  /** A disk that nothing disturbs and on which nothing fails. */
  method CalmDisk(files: map<string, string>) returns (disk: Disk)
    ensures fresh(disk) && disk.Valid() && disk.Calm() && disk.StoreWorks() && disk.files == files
  {
    var id: string := seq(64, _ => '0');
    var capture := (t: nat, f: map<string, string>, path: string, operation: string) =>
      if path in f then Some(Manifest(id, path, operation, f[path])) else None;
    disk := new Disk((t: nat, f: map<string, string>) => f, (t: nat) => false, capture, (t: nat, n: nat) => n, files);
  }
}
