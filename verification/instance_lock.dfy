/**
  The single-instance decision taken by `createPIDFile`, as a function of the
  process state before the call and of what the environment reports. The marker
  file /tmp/com.tradeblazer/appManager.properties is an optional property map;
  its absence is `None`.
*/
module InstanceLock {
  import opened Basics
  import opened JavaStrings
  import opened Liveness

  type Props = map<string, string>

  /** The property under which the marker records its owner's process id. */
  const PID_KEY := "managerPID"
  /** The process name the liveness probe looks for. */
  const APP_NAME := "applicationManager"

  /** The branch of the operating-system dispatch that is taken. */
  datatype Platform = Windows | Linux | Mac | Other

  /**
    What createPIDFile learns from outside the process: its own pid, the
    `os.name` property, the `jps -l` listing, and whether opening the marker
    file for reading or for writing throws.
  */
  datatype Env = Env(pid: string, osName: string, listing: Listing, readFails: bool, writeFails: bool)

  /**
    The process-wide state createPIDFile works on: the `running` flag, whether
    System.exit was called, the shared `prop` map and the marker file.
  */
  datatype State = State(running: bool, halted: bool, prop: Props, marker: Option<Props>)

  /**
    The os.name dispatch, tested in the source's order on the lower-cased name.
    The Windows test is dead code: a lower-cased name cannot contain "Windows",
    so the first test that can succeed is the Linux one.
  */
  function Branch(osName: string): (r: Platform)
    ensures r != Windows
    ensures r == Linux <==> Contains(Lower(osName), "linux")
    ensures r == Mac <==> !Contains(Lower(osName), "linux") && Contains(Lower(osName), "mac")
  {
    LowerHasNoUpperStart(osName, "Windows");
    var name := Lower(osName);
    if Contains(name, "Windows") then Windows
    else if Contains(name, "linux") then Linux
    else if Contains(name, "mac") then Mac
    else Other
  }

  /** `prop.getProperty("managerPID")`. */
  function StoredPid(p: Props): Option<string> {
    if PID_KEY in p then Some(p[PID_KEY]) else None
  }

  /**
    The owner recorded in `p` is alive. A map without the key hands null to
    checkAlive, whose first `contains(null)` throws inside its own try block,
    so the answer is false. So is the answer for a listing that could not be
    started.
  */
  predicate OwnerAlive(p: Props, listing: Listing): (alive: bool)
    ensures alive ==> PID_KEY in p && listing.Output?
  {
    match StoredPid(p)
    case None => false
    case Some(q) => Alive(q, APP_NAME, listing)
  }

  /**
    The effect of createPIDFile. Only the Mac branch touches the marker. An
    existing marker is loaded into `prop`; a live owner makes the process exit,
    a dead one has its marker deleted and the call repeated, which then finds no
    marker. A missing marker is created holding all of `prop` with its own pid.
    An exception while reading or writing stops the `running` loop.

    Whatever the path: the process exits only on finding an existing marker,
    which it leaves in place; `running` is only ever cleared; and a marker that
    was not there before names this process.
  */
  function Acquire(s: State, env: Env): (r: State)
    ensures r.halted != s.halted ==> r.halted && s.marker.Some? && r.marker == s.marker
    ensures r.running != s.running ==> !r.running
    ensures r.marker.Some? && r.marker != s.marker ==> r.marker == Some(r.prop) && StoredPid(r.prop) == Some(env.pid)
    decreases if s.marker.Some? then 1 else 0
  {
    if Branch(env.osName) != Mac then s
    else match s.marker
      case None =>
        if env.writeFails then s.(running := false)
        else
          var p := s.prop[PID_KEY := env.pid];
          s.(prop := p, marker := Some(p))
      case Some(file) =>
        if env.readFails then s.(running := false)
        else
          var p := s.prop + file;
          if OwnerAlive(p, env.listing) then s.(prop := p, halted := true)
          else Acquire(s.(prop := p, marker := None), env)
  }

  /** Outside the Mac branch, and in particular on Linux, nothing changes. */
  lemma OnlyMacTouchesState(s: State, env: Env)
    requires Branch(env.osName) != Mac
    ensures Acquire(s, env) == s
  {
  }

  /** With no marker, the Mac branch creates one naming its own pid. */
  lemma AcquireWithoutMarker(s: State, env: Env)
    requires Branch(env.osName) == Mac && s.marker.None? && !env.writeFails
    ensures var r := Acquire(s, env);
      r.marker == Some(r.prop) && StoredPid(r.prop) == Some(env.pid) &&
      r.running == s.running && r.halted == s.halted &&
      forall k :: k in s.prop && k != PID_KEY ==> k in r.prop && r.prop[k] == s.prop[k]
  {
  }

  /** A marker whose owner is alive is left as it is, and the process exits. */
  lemma AcquireWithLiveOwner(s: State, env: Env)
    requires Branch(env.osName) == Mac && s.marker.Some? && !env.readFails
    requires OwnerAlive(s.prop + s.marker.value, env.listing)
    ensures var r := Acquire(s, env);
      r.halted && r.marker == s.marker && r.running == s.running
  {
  }

  /**
    A marker whose owner is dead is reclaimed with exactly one repetition: the
    repeated call sees no marker. The new marker names its own pid and keeps
    every other key loaded from the stale one.
  */
  lemma {:induction false} AcquireWithDeadOwner(s: State, env: Env)
    requires Branch(env.osName) == Mac && s.marker.Some? && !env.readFails
    requires !OwnerAlive(s.prop + s.marker.value, env.listing)
    ensures var loaded := s.prop + s.marker.value;
      Acquire(s, env) == Acquire(s.(prop := loaded, marker := None), env)
    ensures var loaded := s.prop + s.marker.value; var r := Acquire(s, env);
      !env.writeFails ==>
        r.marker == Some(loaded[PID_KEY := env.pid]) && r.halted == s.halted && r.running == s.running &&
        forall k :: k in loaded && k != PID_KEY ==> k in r.marker.value && r.marker.value[k] == loaded[k]
  {
    var loaded := s.prop + s.marker.value;
    if !env.writeFails {
      AcquireWithoutMarker(s.(prop := loaded, marker := None), env);
    }
  }

  /** Every exception caught by createPIDFile leaves `running` false. */
  lemma AcquireFailureStopsRunning(s: State, env: Env)
    requires Branch(env.osName) == Mac
    requires (s.marker.Some? && env.readFails) || (s.marker.None? && env.writeFails)
    ensures !Acquire(s, env).running && Acquire(s, env).halted == s.halted
  {
  }

  /**
    The decision on the Mac branch, for a running process that has not exited
    (`running` starts true and main calls createPIDFile first): exactly one of
    three things happens. The recorded owner is alive and the process exits
    leaving the marker alone; or an exception stopped the loop; or the process
    keeps running and owns a marker that names its pid.
  */
  lemma {:induction false} AcquireDecides(s: State, env: Env)
    requires Branch(env.osName) == Mac && s.running && !s.halted
    ensures var r := Acquire(s, env);
      || (r.halted && r.marker == s.marker && s.marker.Some? && OwnerAlive(r.prop, env.listing))
      || (!r.halted && !r.running)
      || (!r.halted && r.running && r.marker == Some(r.prop) && StoredPid(r.prop) == Some(env.pid))
    decreases if s.marker.Some? then 1 else 0
  {
    match s.marker
    case None =>
    case Some(file) =>
      if !env.readFails && !OwnerAlive(s.prop + file, env.listing) {
        AcquireWithDeadOwner(s, env);
        AcquireDecides(s.(prop := s.prop + file, marker := None), env);
      }
  }

  /** A Mac reports "Mac OS X": the Mac branch is taken. */
  lemma MacOsXIsMac()
    ensures Branch("Mac OS X") == Mac
  {
    var name := Lower("Mac OS X");
    forall i | 0 <= i < |name| ensures name[i] != 'l' {
      assert name[i] == LowerChar("Mac OS X"[i]);
    }
    ContainsNeedsFirstChar(name, "linux");
    assert name[0] == 'm' && name[1] == 'a' && name[2] == 'c';
    assert OccursAt(name, "mac", 0);
  }

  /** Linux reports "Linux": the Linux branch is taken. */
  lemma LinuxIsLinux()
    ensures Branch("Linux") == Linux
  {
    var name := Lower("Linux");
    assert name == "linux";
    assert OccursAt(name, "linux", 0);
  }

  /** Windows reports names such as "Windows 10", which reach none of the three branches. */
  lemma WindowsIsOther()
    ensures Branch("Windows 10") == Other
  {
    var name := Lower("Windows 10");
    forall i | 0 <= i < |name| ensures name[i] != 'l' && name[i] != 'm' {
      assert name[i] == LowerChar("Windows 10"[i]);
    }
    ContainsNeedsFirstChar(name, "linux");
    ContainsNeedsFirstChar(name, "mac");
  }
}
