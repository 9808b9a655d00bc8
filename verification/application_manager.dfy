/**
  The class applicationManager: its static fields (`running`, the shared `prop`
  map) become the fields of one object, together with the marker file and a flag
  recording that System.exit was called. The methods follow createPIDFile,
  checkAlive (in module Liveness), the control loop of main and the shutdown
  hook, statement by statement.
*/
module AppManager {
  import opened Basics
  import opened JavaStrings
  import opened Liveness
  import opened InstanceLock
  import opened StdinControl

  /**
    What a whole run of main leaves behind: acquisition, then (unless the process
    exited) the control loop, then, once the loop is over, the shutdown hook's
    deletion of the marker. When the input ends with `running` still set, the
    source keeps reading end-of-stream forever; the state is then the one after
    acquisition.

    A run therefore ends in one of three ways: the process exited, it is still
    in the loop (no read has stopped it), or it has left no marker behind. Only
    the loop and the hook follow acquisition; neither touches `prop`.
  */
  function RunOutcome(s: State, env: Env, input: seq<ReadResult>): (r: State)
    ensures r.halted || r.running || r.marker.None?
    ensures r.running && !r.halted ==> Acquire(s, env).running && forall i :: 0 <= i < |input| ==> !EndsLoop(input[i])
    ensures r.prop == Acquire(s, env).prop && r.halted == Acquire(s, env).halted
  {
    var a := Acquire(s, env);
    if a.halted then a
    else if a.running && FirstIndex(input, EndsLoop).None? then a
    else a.(running := false, marker := None)
  }

  /**
    A second instance started while the recorded owner is alive exits at once:
    it never reaches the loop or the shutdown hook, and the marker stays.
  */
  lemma SecondInstanceExits(s: State, env: Env, input: seq<ReadResult>)
    requires Branch(env.osName) == Mac && s.marker.Some? && !env.readFails
    requires OwnerAlive(s.prop + s.marker.value, env.listing)
    ensures var r := RunOutcome(s, env, input); r.halted && r.marker == s.marker
  {
    AcquireWithLiveOwner(s, env);
  }

  /**
    A process that becomes the owner keeps a marker naming it for as long as no
    read stops the loop, and deletes the marker once one does.
  */
  lemma {:induction false} OwnerLifecycle(s: State, env: Env, input: seq<ReadResult>)
    requires Branch(env.osName) == Mac && s.running && !s.halted
    requires s.marker.Some? ==> !env.readFails && !OwnerAlive(s.prop + s.marker.value, env.listing)
    requires !env.writeFails
    ensures var r := RunOutcome(s, env, input);
      !r.halted &&
      (FirstIndex(input, EndsLoop).None? ==> r.running && r.marker.Some? && StoredPid(r.marker.value) == Some(env.pid)) &&
      (FirstIndex(input, EndsLoop).Some? ==> !r.running && r.marker.None?)
  {
    if s.marker.Some? {
      AcquireWithDeadOwner(s, env);
    } else {
      AcquireWithoutMarker(s, env);
    }
  }

  /**
    When the marker cannot be read, `running` is cleared, main skips the loop and
    the shutdown hook deletes the marker, although its owner may still be alive.
  */
  lemma UnreadableMarkerIsDeleted(s: State, env: Env, input: seq<ReadResult>)
    requires Branch(env.osName) == Mac && s.marker.Some? && env.readFails && !s.halted
    ensures var r := RunOutcome(s, env, input); !r.running && r.marker.None?
  {
    AcquireFailureStopsRunning(s, env);
  }

  /**
    Outside the Mac branch the marker is never checked, yet a stopped run still
    deletes whatever marker file exists.
  */
  lemma OtherPlatformsDeleteOnStop(s: State, env: Env, input: seq<ReadResult>)
    requires Branch(env.osName) != Mac && !s.halted
    requires FirstIndex(input, EndsLoop).Some?
    ensures RunOutcome(s, env, input).marker.None?
  {
    OnlyMacTouchesState(s, env);
  }

  class Manager {
    var running: bool
    var halted: bool
    var prop: Props
    var marker: Option<Props>

    function Snapshot(): State
      reads this
    {
      State(running, halted, prop, marker)
    }

    /** A new process: `running` set, `prop` empty, and whatever marker the file system holds. */
    constructor (existing: Option<Props>)
      ensures Snapshot() == State(true, false, map[], existing)
    {
      running, halted, prop, marker := true, false, map[], existing;
    }

    /** createPIDFile. */
    method CreatePIDFile(env: Env)
      modifies this
      ensures Snapshot() == Acquire(old(Snapshot()), env)
      decreases if marker.Some? then 1 else 0
    {
      var pid := env.pid;
      var osName := Lower(env.osName);
      if Contains(osName, "Windows") {
        // "Running on Windows"
      } else if Contains(osName, "linux") {
        // "Running on linux"
      } else if Contains(osName, "mac") {
        if marker.Some? {
          if env.readFails {
            running := false;
            return;
          }
          prop := prop + marker.value;
          var managerPid := StoredPid(prop);
          var alive := false;
          if managerPid.Some? {
            ghost var read;
            alive, read := CheckAlive(managerPid.value, APP_NAME, env.listing);
          }
          if alive {
            halted := true;
            return;
          }
          marker := None;
          CreatePIDFile(env);
        } else {
          if env.writeFails {
            running := false;
            return;
          }
          prop := prop[PID_KEY := pid];
          marker := Some(prop);
        }
      }
    }

    /**
      The `while (running)` loop of main over the reads in `input`. `consumed`
      counts the reads the loop made: up to and including the first one that
      stops it, or all of them.
    */
    method ControlLoop(input: seq<ReadResult>) returns (ghost consumed: nat)
      modifies this`running
      ensures old(running) ==> (running <==> forall j :: 0 <= j < |input| ==> !EndsLoop(input[j]))
      ensures !old(running) ==> !running && consumed == 0
      ensures old(running) ==> consumed == match FirstIndex(input, EndsLoop)
                                           case Some(k) => k + 1
                                           case None => |input|
    {
      var i := 0;
      ghost var wasRunning := running;
      while running && i < |input|
        invariant 0 <= i <= |input|
        invariant !wasRunning ==> !running && i == 0
        invariant wasRunning && running ==> forall j :: 0 <= j < i ==> !EndsLoop(input[j])
        invariant wasRunning && !running ==> 0 < i && FirstIndex(input, EndsLoop) == Some(i - 1)
        decreases |input| - i
      {
        var x := input[i];
        i := i + 1;
        match x
        case ReadError =>
          running := false;
        case EndOfStream =>
          // x.equalsIgnoreCase throws a NullPointerException, which is ignored
        case Line(text) =>
          if EqualsIgnoreCase(text, "stop") {
            running := false;
          }
      }
      consumed := i;
    }

    /** The shutdown hook: delete the marker file, reporting whether there was one. */
    method Release() returns (deleted: bool)
      modifies this`marker
      ensures deleted <==> old(marker).Some?
      ensures marker == None
    {
      deleted := marker.Some?;
      marker := None;
    }

    /** main: acquire, run the control loop, then let the shutdown hook clean up. */
    method Run(env: Env, input: seq<ReadResult>)
      modifies this
      ensures Snapshot() == RunOutcome(old(Snapshot()), env, input)
    {
      CreatePIDFile(env);
      if halted {
        return;
      }
      ghost var consumed := ControlLoop(input);
      if running {
        return;
      }
      var deleted := Release();
    }
  }
}
