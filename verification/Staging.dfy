/**
Staged replacement (core/gef/FileOperations.h, `StagedFile` and `atomicWrite`) as a protocol of
arbitrarily many concurrent calls over one file system.

Each event is one file-system operation of one call; a run is any sequence of enabled events.
Candidate directory names are arbitrary: neither the clock stamp nor the counter is relied on,
because only a successful `create_directory` makes a name a call's own.
*/
module Staging {
  import opened Options

  type Content = seq<nat>

  const ATTEMPTS: nat := 64

  /** Directories, the `data` file inside a staging directory, and the destination files. */
  datatype Disk = Disk(dirs: set<string>, staged: map<string, Content>, files: map<string, Content>)

  /** Where a call stands; `dir` is the staging directory it created. */
  datatype Phase =
    | Choosing(attempt: nat)
    | Writing(dir: string)
    | Renaming(dir: string)
    | RemovingFile(dir: string, ok: bool)
    | RemovingDir(dir: string, ok: bool)
    | Done(ok: bool)
  {
    predicate Live() { Writing? || Renaming? || RemovingFile? || RemovingDir? }

    /** The destination has been replaced. */
    predicate Replaced() { (RemovingFile? || RemovingDir? || Done?) && ok }
  }

  /** One call: its destination, its phase, and the output its writer completed. */
  datatype Call = Call(dest: string, phase: Phase, output: Option<Content>)

  datatype Replacement = Replacement(id: nat, dest: string, content: Content)

  /** `history` records the successful renames in order; `leaked` the directories whose cleanup failed. */
  datatype System = System(disk: Disk, calls: map<nat, Call>, history: seq<Replacement>, leaked: set<string>)

  datatype Event =
    | Start(id: nat, dest: string)
    | Create(id: nat, name: string)
    | CreateExists(id: nat, name: string)
    | CreateError(id: nat)
    | GiveUp(id: nat)
    | Write(id: nat, content: Content)
    | Finish(id: nat, ok: bool)
    | Rename(id: nat)
    | RenameError(id: nat)
    | RemoveFile(id: nat)
    | RemoveFileFault(id: nat)
    | RemoveDir(id: nat)
    | RemoveDirFault(id: nat)

  predicate Fault(e: Event) { e.RemoveFileFault? || e.RemoveDirFault? }

  predicate Enabled(s: System, e: Event) {
    if e.Start? then e.id !in s.calls
    else
      && e.id in s.calls
      && var ph := s.calls[e.id].phase;
         match e
         case Start(_, _) => true
         case Create(_, name) => ph.Choosing? && ph.attempt < ATTEMPTS && name !in s.disk.dirs
         case CreateExists(_, name) => ph.Choosing? && ph.attempt < ATTEMPTS && name in s.disk.dirs
         case CreateError(_) => ph.Choosing? && ph.attempt < ATTEMPTS
         case GiveUp(_) => ph.Choosing? && ph.attempt == ATTEMPTS
         case Write(_, _) => ph.Writing?
         case Finish(_, _) => ph.Writing?
         case Rename(_) => ph.Renaming? && ph.dir in s.disk.staged
         case RenameError(_) => ph.Renaming?
         case RemoveFile(_) => ph.RemovingFile?
         case RemoveFileFault(_) => ph.RemovingFile?
         case RemoveDir(_) => ph.RemovingDir?
         case RemoveDirFault(_) => ph.RemovingDir?
  }

  function At(s: System, id: nat, phase: Phase): System
    requires id in s.calls
  {
    s.(calls := s.calls[id := s.calls[id].(phase := phase)])
  }

  function Step(s: System, e: Event): System
    requires Enabled(s, e)
  {
    if e.Start? then s.(calls := s.calls[e.id := Call(e.dest, Choosing(0), None)])
    else
      var id, call := e.id, s.calls[e.id];
      match e
      case Start(_, _) => s
      case Create(_, name) => At(s, id, Writing(name)).(disk := s.disk.(dirs := s.disk.dirs + {name}))
      case CreateExists(_, _) => At(s, id, Choosing(call.phase.attempt + 1))
      case CreateError(_) => At(s, id, Done(false))
      case GiveUp(_) => At(s, id, Done(false))
      case Write(_, content) => s.(disk := s.disk.(staged := s.disk.staged[call.phase.dir := content]))
      case Finish(_, ok) =>
        if ok then
          var d := call.phase.dir;
          var output := if d in s.disk.staged then Some(s.disk.staged[d]) else None;
          s.(calls := s.calls[id := Call(call.dest, Renaming(d), output)])
        else At(s, id, RemovingFile(call.phase.dir, false))
      case Rename(_) =>
        var d := call.phase.dir;
        var content := s.disk.staged[d];
        At(s, id, RemovingFile(d, true)).(
          disk := s.disk.(staged := s.disk.staged - {d}, files := s.disk.files[call.dest := content]),
          history := s.history + [Replacement(id, call.dest, content)])
      case RenameError(_) => At(s, id, RemovingFile(call.phase.dir, false))
      case RemoveFile(_) =>
        At(s, id, RemovingDir(call.phase.dir, call.phase.ok)).(disk := s.disk.(staged := s.disk.staged - {call.phase.dir}))
      case RemoveFileFault(_) => At(s, id, RemovingDir(call.phase.dir, call.phase.ok))
      case RemoveDir(_) =>
        var d := call.phase.dir;
        if d in s.disk.staged then At(s, id, Done(call.phase.ok)).(leaked := s.leaked + {d})
        else At(s, id, Done(call.phase.ok)).(disk := s.disk.(dirs := s.disk.dirs - {d}))
      case RemoveDirFault(_) => At(s, id, Done(call.phase.ok)).(leaked := s.leaked + {call.phase.dir})
  }

  // ---------------------------------------------------------------- the invariant

  /** A file lives only inside a directory that exists. */
  predicate SoundDisk(d: Disk) { d.staged.Keys <= d.dirs }

  function Replayed(files: map<string, Content>, history: seq<Replacement>): map<string, Content> {
    if history == [] then files
    else
      var last := history[|history| - 1];
      Replayed(files, history[..|history| - 1])[last.dest := last.content]
  }

  predicate InHistory(history: seq<Replacement>, id: nat) {
    exists k :: 0 <= k < |history| && history[k].id == id
  }

  /** Live staging directories exist, are new since the start, and belong to one call each. */
  ghost predicate Exclusive(start: Disk, s: System) {
    && (forall id | id in s.calls && s.calls[id].phase.Live() ::
          var d := s.calls[id].phase.dir; d in s.disk.dirs && d !in start.dirs && d !in s.leaked)
    && (forall i, j | i in s.calls && j in s.calls && i != j && s.calls[i].phase.Live() && s.calls[j].phase.Live() ::
          s.calls[i].phase.dir != s.calls[j].phase.dir)
  }

  /** Directory d is a call's own. */
  ghost predicate Owned(s: System, d: string) {
    exists id :: id in s.calls && s.calls[id].phase.Live() && s.calls[id].phase.dir == d
  }

  /** What exists is what existed, what a live call owns, and what a failed cleanup left behind. */
  ghost predicate Accounted(start: Disk, s: System) {
    && SoundDisk(start) && SoundDisk(s.disk) && start.dirs <= s.disk.dirs && s.leaked <= s.disk.dirs && s.leaked !! start.dirs
    && (forall d | d in s.disk.dirs :: d in start.dirs || d in s.leaked || Owned(s, d))
    && (forall d | d in start.dirs :: d in s.disk.staged <==> d in start.staged)
    && (forall d | d in start.staged :: d in s.disk.staged && s.disk.staged[d] == start.staged[d])
  }

  /** The destinations hold exactly what the successful renames, in order, have put there. */
  ghost predicate Recorded(start: Disk, s: System) {
    && s.disk.files == Replayed(start.files, s.history)
    && (forall k | 0 <= k < |s.history| ::
          var r := s.history[k];
          r.id in s.calls && s.calls[r.id].dest == r.dest && s.calls[r.id].output == Some(r.content))
    && (forall j, k | 0 <= j < k < |s.history| :: s.history[j].id != s.history[k].id)
    && (forall id | id in s.calls :: InHistory(s.history, id) <==> s.calls[id].phase.Replaced())
  }

  /** A call about to rename has its own completed output in its staging file. */
  ghost predicate Complete(s: System) {
    && (forall id | id in s.calls && s.calls[id].phase.Renaming? ::
          var d := s.calls[id].phase.dir;
          s.calls[id].output == if d in s.disk.staged then Some(s.disk.staged[d]) else None)
    && (forall id | id in s.calls && s.calls[id].phase.Choosing? :: s.calls[id].phase.attempt <= ATTEMPTS)
  }

  ghost predicate Inv(start: Disk, s: System) {
    Exclusive(start, s) && Accounted(start, s) && Recorded(start, s) && Complete(s)
  }

  // ---------------------------------------------------------------- every event keeps the invariant

  /** What any event leaves alone: every other call, and every other call's directory and file. */
  lemma StepFrame(s: System, e: Event)
    requires Enabled(s, e)
    ensures var t := Step(s, e);
            && e.id in t.calls && t.calls == s.calls[e.id := t.calls[e.id]]
            && (e.id in s.calls ==> t.calls[e.id].dest == s.calls[e.id].dest)
            && (!e.Rename? ==> t.history == s.history && t.disk.files == s.disk.files)
  {
  }

  /** The directory an event may touch: the one it creates or the one its call owns. */
  function Touched(s: System, e: Event): Option<string>
    requires Enabled(s, e)
  {
    if e.Create? then Some(e.name)
    else if !e.Start? && s.calls[e.id].phase.Live() then Some(s.calls[e.id].phase.dir) else None
  }

  lemma StepDirs(s: System, e: Event)
    requires Enabled(s, e)
    ensures var t := Step(s, e);
            && (forall d | Touched(s, e) != Some(d) ::
                  && (d in t.disk.dirs <==> d in s.disk.dirs) && (d in t.leaked <==> d in s.leaked)
                  && (d in t.disk.staged <==> d in s.disk.staged)
                  && (d in s.disk.staged ==> t.disk.staged[d] == s.disk.staged[d]))
            && (t.calls[e.id].phase.Live() ==> Touched(s, e) == Some(t.calls[e.id].phase.dir))
  {
  }

  /** The touched directory afterwards: owned and present, gone without a file, or leaked and present. */
  lemma StepTouched(s: System, e: Event)
    requires Enabled(s, e) && SoundDisk(s.disk)
    requires !e.Start? && s.calls[e.id].phase.Live() ==> s.calls[e.id].phase.dir in s.disk.dirs
    ensures var t := Step(s, e);
            Touched(s, e).Some? ==>
              var d := Touched(s, e).value;
              && (d in t.disk.staged ==> d in t.disk.dirs)
              && (d in t.disk.dirs ==> t.calls[e.id].phase.Live() || d in t.leaked)
              && (d in t.leaked ==> d in s.leaked || d in t.disk.dirs)
              && (t.calls[e.id].phase.Live() ==> d in t.disk.dirs && (d in t.leaked <==> d in s.leaked))
              && (!Fault(e) && d !in s.disk.staged ==> (d in t.leaked <==> d in s.leaked))
  {
  }

  lemma KeepsExclusive(start: Disk, s: System, e: Event)
    requires Inv(start, s) && Enabled(s, e)
    ensures Exclusive(start, Step(s, e))
  {
    StepFrame(s, e);
    StepDirs(s, e);
    StepTouched(s, e);
    hide Step, Recorded, Complete;
    var t := Step(s, e);
    forall id | id in t.calls && t.calls[id].phase.Live()
      ensures var d := t.calls[id].phase.dir; d in t.disk.dirs && d !in start.dirs && d !in t.leaked
    {
    }
    hide Accounted;
    forall i, j | i in t.calls && j in t.calls && i != j && t.calls[i].phase.Live() && t.calls[j].phase.Live()
      ensures t.calls[i].phase.dir != t.calls[j].phase.dir
    {
    }
  }

  lemma KeepsAccounted(start: Disk, s: System, e: Event)
    requires Inv(start, s) && Enabled(s, e)
    ensures Accounted(start, Step(s, e))
  {
    var t := Step(s, e);
    StepDirs(s, e);
    StepTouched(s, e);
    hide Step, Recorded, Complete, Owned;
    forall d | d in t.disk.dirs ensures d in start.dirs || d in t.leaked || Owned(t, d) {
      KeepsOwner(start, s, e, d);
    }
    assert Touched(s, e).Some? ==> Touched(s, e).value !in start.dirs && Touched(s, e).value !in s.leaked;
    AccountedAfter(start, s, t, Touched(s, e));
  }

  /** Only one directory may have changed, and that one is neither old nor leaked before. */
  lemma AccountedAfter(start: Disk, s: System, t: System, touched: Option<string>)
    requires Accounted(start, s)
    requires forall d | touched != Some(d) ::
               && (d in t.disk.dirs <==> d in s.disk.dirs) && (d in t.leaked <==> d in s.leaked)
               && (d in t.disk.staged <==> d in s.disk.staged)
               && (d in s.disk.staged ==> t.disk.staged[d] == s.disk.staged[d])
    requires touched.Some? ==> touched.value !in start.dirs && touched.value !in s.leaked
    requires touched.Some? ==> (touched.value in t.disk.staged || touched.value in t.leaked ==> touched.value in t.disk.dirs)
    requires forall d | d in t.disk.dirs :: d in start.dirs || d in t.leaked || Owned(t, d)
    ensures Accounted(start, t)
  {
    hide Owned;
  }

  /** A directory that is still there is still accounted for. */
  lemma KeepsOwner(start: Disk, s: System, e: Event, d: string)
    requires Inv(start, s) && Enabled(s, e) && d in Step(s, e).disk.dirs
    ensures d in start.dirs || d in Step(s, e).leaked || Owned(Step(s, e), d)
  {
    var t := Step(s, e);
    StepFrame(s, e);
    StepDirs(s, e);
    StepTouched(s, e);
    hide Step, Recorded, Complete;
    if Touched(s, e) == Some(d) {
      if t.calls[e.id].phase.Live() { assert t.calls[e.id].phase.dir == d; }
    } else if Owned(s, d) {
      var id :| id in s.calls && s.calls[id].phase.Live() && s.calls[id].phase.dir == d;
      assert id in t.calls && t.calls[id] == s.calls[id];
    }
  }

  lemma KeepsComplete(start: Disk, s: System, e: Event)
    requires Inv(start, s) && Enabled(s, e)
    ensures Complete(Step(s, e))
  {
    hide Accounted, Recorded;
    StepFrame(s, e);
    StepDirs(s, e);
    var t := Step(s, e);
    assert t.calls[e.id].phase.Choosing? ==> t.calls[e.id].phase.attempt <= ATTEMPTS;
    assert t.calls[e.id].phase.Renaming? ==>
        var d := t.calls[e.id].phase.dir;
        t.calls[e.id].output == if d in t.disk.staged then Some(t.disk.staged[d]) else None;
    hide Step;
  }

  /** An event other than a rename neither adds to the history nor changes who has replaced. */
  lemma StepQuiet(s: System, e: Event)
    requires Enabled(s, e) && !e.Rename?
    ensures var t := Step(s, e);
            && (t.calls[e.id].phase.Replaced() <==> e.id in s.calls && s.calls[e.id].phase.Replaced())
            && (t.calls[e.id].phase.Replaced() ==> t.calls[e.id].output == s.calls[e.id].output)
  {
  }

  lemma KeepsRecorded(start: Disk, s: System, e: Event)
    requires Inv(start, s) && Enabled(s, e)
    ensures Recorded(start, Step(s, e))
  {
    var t := Step(s, e);
    StepFrame(s, e);
    if e.Rename? {
      RenameRecorded(start, s, e);
    } else {
      StepQuiet(s, e);
      hide Step, Exclusive, Accounted, Complete, Replayed, Enabled;
      forall k | 0 <= k < |t.history|
        ensures var r := t.history[k];
                r.id in t.calls && t.calls[r.id].dest == r.dest && t.calls[r.id].output == Some(r.content)
      {
        assert InHistory(s.history, s.history[k].id);
      }
    }
  }

  lemma RenameRecorded(start: Disk, s: System, e: Event)
    requires Inv(start, s) && Enabled(s, e) && e.Rename?
    ensures Recorded(start, Step(s, e))
  {
    hide Exclusive, Accounted, Recorded;
    var r := Replacement(e.id, s.calls[e.id].dest, s.disk.staged[s.calls[e.id].phase.dir]);
    StepFrame(s, e);
    RecordedAppend(start, s, Step(s, e), r);
  }

  /** One more entry by a call that had none. */
  lemma RecordedAppend(start: Disk, s: System, t: System, r: Replacement)
    requires Recorded(start, s) && r.id in s.calls && r.id in t.calls && !s.calls[r.id].phase.Replaced()
    requires t.calls == s.calls[r.id := t.calls[r.id]] && t.calls[r.id].phase.Replaced()
    requires t.calls[r.id].dest == r.dest && t.calls[r.id].output == Some(r.content)
    requires t.history == s.history + [r] && t.disk.files == s.disk.files[r.dest := r.content]
    ensures Recorded(start, t)
  {
    hide Phase.Replaced, InHistory;
    assert t.history[..|t.history| - 1] == s.history;
    assert t.disk.files == Replayed(start.files, t.history);
    hide Replayed;
    forall k | 0 <= k < |s.history| ensures s.history[k].id != r.id {
      IdInHistory(s.history, k);
    }
    forall id | id in t.calls ensures InHistory(t.history, id) <==> t.calls[id].phase.Replaced() {
      HistoryAppended(s.history, r, id);
    }
  }

  lemma IdInHistory(history: seq<Replacement>, k: nat)
    requires k < |history|
    ensures InHistory(history, history[k].id)
  {
  }

  lemma HistoryAppended(history: seq<Replacement>, r: Replacement, id: nat)
    ensures InHistory(history + [r], id) <==> InHistory(history, id) || r.id == id
  {
    var all := history + [r];
    assert all[|history|] == r;
    if InHistory(history, id) {
      var k :| 0 <= k < |history| && history[k].id == id;
      assert all[k].id == id;
    }
    if InHistory(all, id) && r.id != id {
      var k :| 0 <= k < |all| && all[k].id == id;
      assert history[k].id == id;
    }
  }

  lemma KeepsInv(start: Disk, s: System, e: Event)
    requires Inv(start, s) && Enabled(s, e)
    ensures Inv(start, Step(s, e))
  {
    hide Step, Exclusive, Accounted, Recorded, Complete;
    KeepsExclusive(start, s, e);
    KeepsAccounted(start, s, e);
    KeepsRecorded(start, s, e);
    KeepsComplete(start, s, e);
  }

  // ---------------------------------------------------------------- whole runs

  ghost predicate Runs(s: System, es: seq<Event>, t: System)
    decreases |es|
  {
    if es == [] then t == s else Enabled(s, es[0]) && Runs(Step(s, es[0]), es[1..], t)
  }

  function Initial(start: Disk): System { System(start, map[], [], {}) }

  lemma {:induction false} RunKeepsInv(start: Disk, s: System, es: seq<Event>, t: System)
    requires Inv(start, s) && Runs(s, es, t)
    ensures Inv(start, t)
    decreases |es|
  {
    hide Step, Inv;
    if es != [] {
      KeepsInv(start, s, es[0]);
      RunKeepsInv(start, Step(s, es[0]), es[1..], t);
    }
  }

  lemma RunInv(start: Disk, es: seq<Event>, t: System)
    requires SoundDisk(start) && Runs(Initial(start), es, t)
    ensures Inv(start, t)
  {
    assert Inv(start, Initial(start));
    RunKeepsInv(start, Initial(start), es, t);
  }

  /** At every moment of every run, live staging directories exist, are new, and are pairwise distinct. */
  lemma LiveDirectoriesDistinct(start: Disk, es: seq<Event>, t: System, i: nat, j: nat)
    requires SoundDisk(start) && Runs(Initial(start), es, t)
    requires i in t.calls && j in t.calls && t.calls[i].phase.Live() && t.calls[j].phase.Live()
    ensures t.calls[i].phase.dir in t.disk.dirs && t.calls[i].phase.dir !in start.dirs
    ensures t.calls[i].phase.dir == t.calls[j].phase.dir <==> i == j
  {
    RunInv(start, es, t);
    hide Runs, Recorded, Complete, Accounted;
  }

  /** At every moment each destination holds its initial content or one call's complete output for it. */
  lemma DestinationsComplete(start: Disk, es: seq<Event>, t: System, dest: string)
    requires SoundDisk(start) && Runs(Initial(start), es, t)
    ensures dest in start.files ==> dest in t.disk.files
    ensures dest in t.disk.files ==>
              || (dest in start.files && t.disk.files[dest] == start.files[dest])
              || (exists id :: id in t.calls && t.calls[id].dest == dest && t.calls[id].phase.Replaced()
                               && t.calls[id].output == Some(t.disk.files[dest]))
  {
    RunInv(start, es, t);
    hide Runs, Exclusive, Complete, Accounted;
    var k := LastFor(start.files, t.history, dest);
    if k < |t.history| {
      var id := t.history[k].id;
      assert InHistory(t.history, id);
    }
  }

  /** The content of a destination is that of the last successful rename to it, if there was one. */
  lemma {:induction false} LastFor(files: map<string, Content>, history: seq<Replacement>, dest: string) returns (k: nat)
    ensures k <= |history|
    ensures k == |history| ==> forall j | 0 <= j < |history| :: history[j].dest != dest
    ensures k == |history| ==> (dest in Replayed(files, history) <==> dest in files)
                               && (dest in files ==> Replayed(files, history)[dest] == files[dest])
    ensures k < |history| ==> history[k].dest == dest && dest in Replayed(files, history)
                              && Replayed(files, history)[dest] == history[k].content
                              && forall j | k < j < |history| :: history[j].dest != dest
  {
    if history == [] {
      k := 0;
    } else {
      var n := |history| - 1;
      if history[n].dest == dest {
        k := n;
      } else {
        k := LastFor(files, history[..n], dest);
        if k == n { k := n + 1; }
      }
    }
  }

  /** A call that reports failure has replaced nothing; one that reports success has replaced exactly once. */
  lemma OutcomeMatchesEffect(start: Disk, es: seq<Event>, t: System, id: nat)
    requires SoundDisk(start) && Runs(Initial(start), es, t)
    requires id in t.calls && t.calls[id].phase.Done?
    ensures !t.calls[id].phase.ok ==> forall k | 0 <= k < |t.history| :: t.history[k].id != id
    ensures t.calls[id].phase.ok ==>
              exists k :: 0 <= k < |t.history| && t.history[k].id == id && t.history[k].dest == t.calls[id].dest
                          && t.calls[id].output == Some(t.history[k].content)
                          && forall j | 0 <= j < |t.history| && j != k :: t.history[j].id != id
  {
    RunInv(start, es, t);
    hide Runs, Exclusive, Complete, Accounted, Replayed;
    if t.calls[id].phase.ok {
      var k :| 0 <= k < |t.history| && t.history[k].id == id;
      assert t.history[k].id == id;
    } else {
      assert !InHistory(t.history, id);
    }
  }

  /** No event but a call's own rename changes its destination from under a reader. */
  lemma OnlyRenamesReplace(start: Disk, s: System, e: Event)
    requires Inv(start, s) && Enabled(s, e)
    ensures Step(s, e).disk.files ==
            if e.Rename? then s.disk.files[s.calls[e.id].dest := s.calls[e.id].output.value] else s.disk.files
  {
  }

  // ---------------------------------------------------------------- nothing remains

  /** No cleanup has failed so far. */
  ghost predicate Clean(s: System) {
    s.leaked == {} && forall id | id in s.calls && s.calls[id].phase.RemovingDir? :: s.calls[id].phase.dir !in s.disk.staged
  }

  lemma KeepsClean(start: Disk, s: System, e: Event)
    requires Inv(start, s) && Clean(s) && Enabled(s, e) && !Fault(e)
    ensures Clean(Step(s, e))
  {
    var t := Step(s, e);
    StepFrame(s, e);
    StepDirs(s, e);
    assert t.leaked == {};
    assert t.calls[e.id].phase.RemovingDir? ==> t.calls[e.id].phase.dir !in t.disk.staged;
    hide Step, Recorded, Complete, Accounted;
  }

  lemma {:induction false} RunKeepsClean(start: Disk, s: System, es: seq<Event>, t: System)
    requires Inv(start, s) && Clean(s) && Runs(s, es, t) && forall k | 0 <= k < |es| :: !Fault(es[k])
    ensures Clean(t)
    decreases |es|
  {
    hide Step, Inv, Clean;
    if es != [] {
      KeepsInv(start, s, es[0]);
      KeepsClean(start, s, es[0]);
      RunKeepsClean(start, Step(s, es[0]), es[1..], t);
    }
  }

  /** Once all calls are done, the only new directories are those whose cleanup failed. */
  lemma ResidueIsLeaked(start: Disk, es: seq<Event>, t: System)
    requires SoundDisk(start) && Runs(Initial(start), es, t)
    requires forall id | id in t.calls :: t.calls[id].phase.Done?
    ensures t.disk.dirs == start.dirs + t.leaked
  {
    RunInv(start, es, t);
    hide Runs, Exclusive, Complete, Recorded;
  }

  /** Without storage faults, no staging directory and no staging file remains once all calls are done. */
  lemma NoResidue(start: Disk, es: seq<Event>, t: System)
    requires SoundDisk(start) && Runs(Initial(start), es, t)
    requires forall id | id in t.calls :: t.calls[id].phase.Done?
    requires forall k | 0 <= k < |es| :: !Fault(es[k])
    ensures t.disk.dirs == start.dirs && t.disk.staged == start.staged
  {
    RunInv(start, es, t);
    ResidueIsLeaked(start, es, t);
    assert Inv(start, Initial(start)) && Clean(Initial(start));
    RunKeepsClean(start, Initial(start), es, t);
    hide Runs, Exclusive, Complete, Recorded;
    assert t.disk.staged.Keys == start.staged.Keys;
  }

  // ---------------------------------------------------------------- how many names are tried

  /** A call gives up after exactly 64 taken names, and until then a taken name only leads to the next. */
  lemma SixtyFourNames(start: Disk, s: System, id: nat, name: string)
    requires Inv(start, s) && id in s.calls && s.calls[id].phase.Choosing?
    ensures Enabled(s, GiveUp(id)) <==> s.calls[id].phase == Choosing(64)
    ensures Enabled(s, CreateExists(id, name)) <==> s.calls[id].phase.attempt < 64 && name in s.disk.dirs
    ensures Enabled(s, Create(id, name)) <==> s.calls[id].phase.attempt < 64 && name !in s.disk.dirs
    ensures Enabled(s, CreateExists(id, name)) ==>
              Step(s, CreateExists(id, name)).calls[id].phase == Choosing(s.calls[id].phase.attempt + 1)
  {
  }

  // ---------------------------------------------------------------- every call ends

  /** What is left of a call, not counting the writer's own writes. */
  function Remaining(ph: Phase): nat {
    match ph
    case Choosing(a) => if a <= ATTEMPTS then 5 + ATTEMPTS - a else 5
    case Writing(_) => 4
    case Renaming(_) => 3
    case RemovingFile(_, _) => 2
    case RemovingDir(_, _) => 1
    case Done(_) => 0
  }

  /** A call that is not done can always move on, and every move but a write brings it closer to its end. */
  lemma CallsEnd(start: Disk, s: System, id: nat) returns (e: Event)
    requires Inv(start, s) && id in s.calls && !s.calls[id].phase.Done?
    ensures e.id == id && Enabled(s, e) && !e.Write?
    ensures forall f: Event | f.id == id && !f.Write? && Enabled(s, f) ::
              Remaining(Step(s, f).calls[id].phase) < Remaining(s.calls[id].phase)
  {
    hide Exclusive, Accounted, Recorded;
    match s.calls[id].phase
    case Choosing(a) => e := if a < ATTEMPTS then CreateError(id) else GiveUp(id);
    case Writing(_) => e := Finish(id, false);
    case Renaming(_) => e := RenameError(id);
    case RemovingFile(_, _) => e := RemoveFile(id);
    case RemovingDir(_, _) => e := RemoveDir(id);
  }
}
