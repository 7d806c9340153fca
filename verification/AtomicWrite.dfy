/**
`atomicWrite` itself (core/gef/FileOperations.h), as a sequential method on a file system that other
calls change between any two of its steps. Every step it takes is an event of the protocol.
*/
module AtomicWrite {
  import opened Options
  import opened Staging

  /** What the call meets on its way: candidate names, outcomes of file operations, and the writer's writes. */
  datatype Environment = Environment(
    names: nat -> string,
    createFails: nat -> bool,
    writes: seq<Content>,
    writerSucceeds: bool,
    renameFails: bool,
    removeFileFails: bool,
    removeDirFails: bool)

  // ---------------------------------------------------------------- interference

  /** t is reachable from s by events of calls other than id. */
  ghost predicate ByOthers(s: System, t: System, id: nat) {
    exists es: seq<Event> :: Runs(s, es, t) && forall k | 0 <= k < |es| :: es[k].id != id
  }

  /** t is reachable from s. */
  ghost predicate Reaches(s: System, t: System) {
    exists es :: Runs(s, es, t)
  }

  lemma {:induction false} RunsAppend(s: System, a: seq<Event>, t: System, b: seq<Event>, u: System)
    requires Runs(s, a, t) && Runs(t, b, u)
    ensures Runs(s, a + b, u)
    decreases |a|
  {
    hide Enabled, Step;
    if a == [] {
      assert a + b == b;
    } else {
      RunsAppend(Step(s, a[0]), a[1..], t, b, u);
      assert (a + b)[0] == a[0] && (a + b)[1..] == a[1..] + b;
    }
  }

  lemma ReachesTransitive(s: System, t: System, u: System)
    requires Reaches(s, t) && Reaches(t, u)
    ensures Reaches(s, u)
  {
    var a :| Runs(s, a, t);
    var b :| Runs(t, b, u);
    RunsAppend(s, a, t, b, u);
  }

  lemma OneStep(s: System, e: Event)
    requires Enabled(s, e)
    ensures Reaches(s, Step(s, e))
  {
    hide Enabled, Step;
    assert Runs(Step(s, e), [], Step(s, e));
    assert [e][1..] == [];
    assert Runs(s, [e], Step(s, e));
  }

  /** The staging file of a call's own directory, if it has both. */
  function OwnFile(s: System, id: nat): Option<Content>
    requires id in s.calls
  {
    if s.calls[id].phase.Live() && s.calls[id].phase.dir in s.disk.staged
    then Some(s.disk.staged[s.calls[id].phase.dir]) else None
  }

  /** Other calls change neither a call's progress nor the file in its staging directory. */
  lemma {:induction false} OthersLeaveAlone(start: Disk, s: System, es: seq<Event>, t: System, id: nat)
    requires Inv(start, s) && Runs(s, es, t) && id in s.calls && forall k | 0 <= k < |es| :: es[k].id != id
    ensures id in t.calls && t.calls[id] == s.calls[id] && OwnFile(t, id) == OwnFile(s, id)
    decreases |es|
  {
    if es != [] {
      OtherLeavesAlone(start, s, es[0], id);
      KeepsInv(start, s, es[0]);
      hide Step, Inv, Enabled, OwnFile;
      OthersLeaveAlone(start, Step(s, es[0]), es[1..], t, id);
    }
  }

  lemma OtherLeavesAlone(start: Disk, s: System, e: Event, id: nat)
    requires Inv(start, s) && Enabled(s, e) && id in s.calls && e.id != id
    ensures id in Step(s, e).calls && Step(s, e).calls[id] == s.calls[id] && OwnFile(Step(s, e), id) == OwnFile(s, id)
  {
    StepFrame(s, e);
    StepDirs(s, e);
    hide Step, Recorded, Complete;
  }

  // ---------------------------------------------------------------- the operation

  class FileSystem {
    const start: Disk
    var system: System

    ghost predicate Valid()
      reads this
    {
      Inv(start, system)
    }

    constructor (disk: Disk)
      requires SoundDisk(disk)
      ensures Valid() && start == disk && system == Initial(disk)
    {
      start := disk;
      system := Initial(disk);
    }

    /** Any number of steps of other calls; callers may rely on nothing else. */
    method Interfere(id: nat)
      requires Valid()
      modifies this
      ensures Valid() && ByOthers(old(system), system, id)
    {
      assert Runs(system, [], system);
    }

    /** One file-system operation. */
    method Perform(e: Event)
      requires Valid() && Enabled(system, e)
      modifies this
      ensures Valid() && system == Step(old(system), e)
    {
      KeepsInv(start, system, e);
      system := Step(system, e);
    }

    /** Lets others run; our call and its file stay as they were. */
    method Wait(id: nat)
      requires Valid() && id in system.calls
      modifies this
      ensures Valid() && Reaches(old(system), system)
      ensures id in system.calls && system.calls[id] == old(system).calls[id]
      ensures OwnFile(system, id) == OwnFile(old(system), id)
    {
      Interfere(id);
      ghost var es: seq<Event> :| Runs(old(system), es, system) && forall k | 0 <= k < |es| :: es[k].id != id;
      OthersLeaveAlone(start, old(system), es, system, id);
    }

    /** A step of our own. */
    method Advance(e: Event)
      requires Valid() && Enabled(system, e)
      modifies this
      ensures Valid() && Reaches(old(system), system) && system == Step(old(system), e)
    {
      OneStep(system, e);
      Perform(e);
    }
  }

  /**
  The first `attempt` of the 64 candidate names were taken when tried; `tried` holds the directories that existed
  at each try. What ended the search: a free name, an error of the next creation, or the end of the names.
  */
  ghost predicate Searched(env: Environment, acquired: bool, attempt: nat, tried: seq<set<string>>) {
    && attempt <= 64 && attempt <= |tried|
    && (forall a | 0 <= a < attempt :: env.names(a) in tried[a] && !env.createFails(a))
    && (acquired ==> attempt < 64 && |tried| == attempt + 1 && env.names(attempt) !in tried[attempt] && !env.createFails(attempt))
    && (!acquired ==> attempt == 64 || env.createFails(attempt))
  }

  /** Creates a directory of its own under the first candidate name that is free when tried. */
  method Acquire(fs: FileSystem, id: nat, env: Environment)
    returns (acquired: bool, attempt: nat, ghost tried: seq<set<string>>)
    requires fs.Valid() && id in fs.system.calls && fs.system.calls[id].phase == Choosing(0)
    modifies fs
    ensures fs.Valid() && Reaches(old(fs.system), fs.system) && id in fs.system.calls
    ensures fs.system.calls[id].dest == old(fs.system).calls[id].dest
    ensures fs.system.calls[id].output == old(fs.system).calls[id].output
    ensures acquired ==> fs.system.calls[id].phase == Writing(env.names(attempt))
    ensures !acquired ==> fs.system.calls[id].phase == Done(false)
    ensures !acquired ==> attempt == 64 || (attempt < 64 && env.createFails(attempt))
    ensures Searched(env, acquired, attempt, tried)
  {
    hide FileSystem.Valid, Reaches;
    ReachesSelf(fs.system);
    attempt, tried := 0, [];
    while attempt < ATTEMPTS
      invariant attempt <= ATTEMPTS && |tried| == attempt
      invariant forall a | 0 <= a < attempt :: env.names(a) in tried[a] && !env.createFails(a)
      invariant id in fs.system.calls && fs.system.calls[id].output == old(fs.system).calls[id].output
      invariant fs.Valid() && Reaches(old(fs.system), fs.system) && id in fs.system.calls
      invariant fs.system.calls[id].phase == Choosing(attempt)
      invariant fs.system.calls[id].dest == old(fs.system).calls[id].dest
    {
      ghost var s0 := fs.system;
      fs.Wait(id);
      ghost var s1 := fs.system;
      ReachesTransitive(old(fs.system), s0, s1);
      var candidate := env.names(attempt);
      tried := tried + [fs.system.disk.dirs];
      if env.createFails(attempt) {
        fs.Advance(CreateError(id));
        ReachesTransitive(old(fs.system), s1, fs.system);
        return false, attempt, tried;
      }
      if candidate !in fs.system.disk.dirs {
        fs.Advance(Create(id, candidate));
        ReachesTransitive(old(fs.system), s1, fs.system);
        return true, attempt, tried;
      }
      fs.Advance(CreateExists(id, candidate));
      ReachesTransitive(old(fs.system), s1, fs.system);
      attempt := attempt + 1;
    }
    ghost var s2 := fs.system;
    fs.Advance(GiveUp(id));
    ReachesTransitive(old(fs.system), s2, fs.system);
    return false, attempt, tried;
  }

  lemma ReachesSelf(s: System)
    ensures Reaches(s, s)
  {
    assert Runs(s, [], s);
  }

  /** Runs the writer on the staging file: any number of writes, then its verdict. */
  method RunWriter(fs: FileSystem, id: nat, env: Environment)
    requires fs.Valid() && id in fs.system.calls && fs.system.calls[id].phase.Writing?
    modifies fs
    ensures fs.Valid() && Reaches(old(fs.system), fs.system) && id in fs.system.calls
    ensures fs.system.calls[id].dest == old(fs.system).calls[id].dest
    ensures env.writerSucceeds ==>
              && fs.system.calls[id].phase.Renaming?
              && OwnFile(fs.system, id) == fs.system.calls[id].output
              && (env.writes != [] ==> fs.system.calls[id].output == Some(env.writes[|env.writes| - 1]))
    ensures !env.writerSucceeds ==> fs.system.calls[id].phase.RemovingFile? && !fs.system.calls[id].phase.ok
    ensures fs.system.calls[id].phase.dir == old(fs.system).calls[id].phase.dir
  {
    hide FileSystem.Valid, Reaches;
    ReachesSelf(fs.system);
    for n := 0 to |env.writes|
      invariant fs.Valid() && Reaches(old(fs.system), fs.system) && id in fs.system.calls
      invariant fs.system.calls[id].phase.Writing? && fs.system.calls[id].dest == old(fs.system).calls[id].dest
      invariant fs.system.calls[id].phase.dir == old(fs.system).calls[id].phase.dir
      invariant n > 0 ==> OwnFile(fs.system, id) == Some(env.writes[n - 1])
    {
      ghost var s0 := fs.system;
      fs.Wait(id);
      ghost var s1 := fs.system;
      ReachesTransitive(old(fs.system), s0, s1);
      fs.Advance(Write(id, env.writes[n]));
      ReachesTransitive(old(fs.system), s1, fs.system);
    }
    ghost var s2 := fs.system;
    fs.Wait(id);
    ghost var s3 := fs.system;
    ReachesTransitive(old(fs.system), s2, s3);
    fs.Advance(Finish(id, env.writerSucceeds));
    ReachesTransitive(old(fs.system), s3, fs.system);
  }

  /** The destructor of the staging record: best-effort removal of the file and of the directory. */
  method CleanUp(fs: FileSystem, id: nat, env: Environment)
    requires fs.Valid() && id in fs.system.calls && fs.system.calls[id].phase.RemovingFile?
    modifies fs
    ensures fs.Valid() && Reaches(old(fs.system), fs.system) && id in fs.system.calls
    ensures fs.system.calls[id].phase == Done(old(fs.system).calls[id].phase.ok)
    ensures fs.system.calls[id].dest == old(fs.system).calls[id].dest
    ensures fs.system.calls[id].output == old(fs.system).calls[id].output
    ensures var dir := old(fs.system).calls[id].phase.dir;
            && (env.removeDirFails ==> dir in fs.system.leaked)
            && (!env.removeDirFails && (!env.removeFileFails || OwnFile(old(fs.system), id).None?) ==> dir !in fs.system.disk.dirs)
  {
    hide FileSystem.Valid, Reaches;
    fs.Wait(id);
    ghost var s1 := fs.system;
    fs.Advance(if env.removeFileFails then RemoveFileFault(id) else RemoveFile(id));
    ghost var s2 := fs.system;
    ReachesTransitive(old(fs.system), s1, s2);
    fs.Wait(id);
    ghost var s3 := fs.system;
    ReachesTransitive(old(fs.system), s2, s3);
    fs.Advance(if env.removeDirFails then RemoveDirFault(id) else RemoveDir(id));
    ReachesTransitive(old(fs.system), s3, fs.system);
  }

  /**
  The whole call: a run of the protocol that ends with this call done, whatever the others do meanwhile. A call
  whose writer wrote and succeeded and whose rename works fails only for want of a directory: after `taken` names
  that exist already, the next creation met an error, or all 64 were taken when tried. So it succeeds whenever one
  of its first 64 names is free when tried and no creation before it failed.
  */
  method AtomicWrite(fs: FileSystem, id: nat, dest: string, env: Environment)
    returns (ok: bool, taken: nat, ghost tried: seq<set<string>>)
    requires fs.Valid() && id !in fs.system.calls
    modifies fs
    ensures fs.Valid() && Reaches(old(fs.system), fs.system)
    ensures id in fs.system.calls && fs.system.calls[id].phase == Done(ok) && fs.system.calls[id].dest == dest
    ensures ok && env.writes != [] ==> fs.system.calls[id].output == Some(env.writes[|env.writes| - 1])
    ensures !env.writerSucceeds || env.renameFails ==> !ok
    ensures env.writerSucceeds && !env.renameFails && fs.system.calls[id].output.Some? ==> ok
    ensures !ok && env.writerSucceeds && !env.renameFails && env.writes != [] ==>
              taken == 64 || (taken < 64 && env.createFails(taken))
    ensures !ok && env.writerSucceeds && !env.renameFails && env.writes != [] ==> Searched(env, false, taken, tried)
    ensures ok ==> exists k :: 0 <= k < |fs.system.history| && fs.system.history[k].id == id && fs.system.history[k].dest == dest
                               && Some(fs.system.history[k].content) == fs.system.calls[id].output
    ensures !ok ==> forall k | 0 <= k < |fs.system.history| :: fs.system.history[k].id != id
    ensures taken < 64 && !env.createFails(taken) && !env.removeDirFails && (ok || !env.removeFileFails) ==>
              env.names(taken) !in fs.system.disk.dirs
    ensures taken <= 64 && taken <= |tried| && forall a | 0 <= a < taken :: env.names(a) in tried[a] && !env.createFails(a)
  {
    hide FileSystem.Valid, Reaches;
    fs.Advance(Start(id, dest));
    ghost var s1 := fs.system;
    var acquired;
    acquired, taken, tried := Acquire(fs, id, env);
    ghost var s2 := fs.system;
    ReachesTransitive(old(fs.system), s1, s2);
    if !acquired {
      OutcomeRecorded(fs, id);
      return false, taken, tried;
    }
    RunWriter(fs, id, env);
    ghost var s3 := fs.system;
    ReachesTransitive(old(fs.system), s2, s3);
    if env.writerSucceeds {
      fs.Wait(id);
      ghost var s4 := fs.system;
      ReachesTransitive(old(fs.system), s3, s4);
      if env.renameFails || fs.system.calls[id].phase.dir !in fs.system.disk.staged {
        fs.Advance(RenameError(id));
      } else {
        fs.Advance(Rename(id));
      }
      ReachesTransitive(old(fs.system), s4, fs.system);
    }
    ghost var s5 := fs.system;
    ok := fs.system.calls[id].phase.ok;
    CleanUp(fs, id, env);
    ReachesTransitive(old(fs.system), s5, fs.system);
    OutcomeRecorded(fs, id);
  }

  /** What a finished call reports is what the record of renames says of it. */
  lemma OutcomeRecorded(fs: FileSystem, id: nat)
    requires fs.Valid() && id in fs.system.calls && fs.system.calls[id].phase.Done?
    ensures var s := fs.system;
            && (s.calls[id].phase.ok ==>
                  exists k :: 0 <= k < |s.history| && s.history[k].id == id && s.history[k].dest == s.calls[id].dest
                              && Some(s.history[k].content) == s.calls[id].output)
            && (!s.calls[id].phase.ok ==> forall k | 0 <= k < |s.history| :: s.history[k].id != id)
  {
    var s := fs.system;
    if s.calls[id].phase.ok {
      assert InHistory(s.history, id);
    } else {
      assert !InHistory(s.history, id);
    }
    hide Exclusive, Accounted, Complete;
  }
}
