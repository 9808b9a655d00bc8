# applicationManager — single-instance lock, in Dafny

This project models the single-instance mechanism of `applicationManager`, a
Java program that is meant to run once per host. At start-up it consults a
marker file, `/tmp/com.tradeblazer/appManager.properties`, whose
`managerPID` property names the process that owns the application:

- **createPIDFile** dispatches on the lower-cased `os.name`. Only the Mac
  branch acts. With no marker it writes one holding its own pid. With a marker
  it loads the marker into the shared `prop` map and asks `checkAlive` about
  the recorded pid. A live owner makes the process exit with `System.exit(0)`.
  A dead owner has its marker deleted, and the method calls itself again. An
  exception clears the `running` flag.
- **checkAlive** reads the `jps -l` listing line by line. Each line is split at
  word boundaries (`split("\\b")`). A line matches when its first piece
  contains the pid and, if the line has three or more pieces, its third piece
  contains the process name. The scan stops at the first match. Failure to run
  or read the listing means "not alive".
- **main** loops on `running`, reading standard input. The loop stops on a line
  equal to `stop` ignoring case, or on an IOException. A null line (end of
  input) throws a NullPointerException, which is swallowed.
- **The shutdown hook** is registered after the loop ends. It deletes the
  marker file and reports whether there was one.

Files:

- `basics.dfy`: `Option` and `FirstIndex`.
- `java_strings.dfy`: the `String` operations the code relies on, over ASCII:
  `toLowerCase`, `contains`, `equalsIgnoreCase` and `split("\\b")`.
- `liveness.dfy`: `checkAlive` as a method with a loop, and the rule it
  applies to each line.
- `instance_lock.dfy`: the decision `createPIDFile` takes, as the function
  `Acquire`, and lemmas about it.
- `stdin_control.dfy`: the rule that ends main's control loop.
- `application_manager.dfy`: the class `Manager`. It holds the static state
  as fields (`running`, `prop`, the marker file, and whether `System.exit` was
  called). Its methods follow `createPIDFile`, the loop of `main` and the
  shutdown hook. Each method is proved against the functions above.

The foreign inputs arrive as values of type `Env`: the process id, `os.name`,
the `jps -l` output, and whether opening the marker for reading or for writing
throws. Standard input arrives as a sequence of `ReadResult`.

Some consequences of the code as written:

- the pid test is a substring test on the first piece
  (`linePID.contains(pid)`, `applicationManager.java:156`, with `linePID`
  being `lineParts[0]`, line 152), so a process whose id merely contains the
  pid counts as the owner;
- a line is split at word boundaries, not at whitespace (line 151);
- `stop` must be the whole line, ignoring case
  (`equalsIgnoreCase`, line 38); a line that merely contains it does not stop
  the loop;
- a stale marker is deleted and `createPIDFile` calls itself once more
  (line 110); nothing bounds that recursion if the delete fails;
- a second instance whose owner is alive calls `System.exit(0)` (line 105)
  and does nothing else.

## Model

| member | source | states |
|---|---|---|
| `JavaStrings.Lower` | src/main/java/applicationManager.java:88 | `toLowerCase` over ASCII: same length, no upper-case letter left, every other character unchanged |
| `JavaStrings.Contains` | src/main/java/applicationManager.java:156 | `s.contains(t)`, tried at each start position in turn; `ContainsIffOccurs` proves it is the substring test |
| `JavaStrings.EqualsIgnoreCase` | src/main/java/applicationManager.java:38 | `equalsIgnoreCase`: same length, and the characters agree position by position once lower-cased |
| `JavaStrings.ContainsIffOccurs` | src/main/java/applicationManager.java:156 | `s.contains(t)` holds exactly when `t` occurs in `s` at some index |
| `JavaStrings.LowerHasNoUpperStart` | src/main/java/applicationManager.java:88 | a lower-cased string never contains a string that starts with an upper-case letter |
| `JavaStrings.EqualsIgnoreCaseIsLowerEquality` | src/main/java/applicationManager.java:38 | `equalsIgnoreCase` holds exactly when the two lower-cased strings are equal |
| `JavaStrings.RunLength` | src/main/java/applicationManager.java:151 | the first piece between word boundaries is non-empty and uniform, and it is maximal: the next character changes class |
| `JavaStrings.Runs` | src/main/java/applicationManager.java:151 | the pieces join back to the line, and there are none only for the empty line |
| `JavaStrings.RunsAreMaximal` | src/main/java/applicationManager.java:151 | every piece is non-empty and uniform, and neighbouring pieces alternate between word and non-word characters, so the cuts are exactly the word boundaries |
| `JavaStrings.SplitWordBoundaries` | src/main/java/applicationManager.java:151 | `split("\\b")` gives at least one piece (so `lineParts[0]` exists), and the pieces join back to the line |
| `JavaStrings.RunsOfPrefixedRun` | src/main/java/applicationManager.java:151 | a uniform run followed by a change of character class is split off as the first piece |
| `Liveness.CheckAlive` | src/main/java/applicationManager.java:141-177 | answers true exactly when the listing was started and some line read from it matches; it reads lines up to and including the first match; a listing that cannot be started gives false, and a read failure ends the scan with the answer for the lines read so far |
| `Liveness.LineMatches` | src/main/java/applicationManager.java:151-167 | a line that passes the per-line test contains the pid, and, when it splits into three pieces or more, contains the process name too |
| `Liveness.Alive` | src/main/java/applicationManager.java:141-177 | the answer checkAlive gives: the listing was started and some line of it matches; a listing that cannot be started gives false |
| `Liveness.DefaultPackageLineParts` | src/main/java/applicationManager.java:151-155 | a `jps -l` line "pid name…" for a class in the default package splits into the pid, one space and the name |
| `Liveness.DefaultPackageLineMatches` | src/main/java/applicationManager.java:154-160 | such a line is recognised as the process `pid` running `name` |
| `Liveness.PackagedLineChecksFirstSegment` | src/main/java/applicationManager.java:154-160 | for "pid pkg.rest" piece 2 is the first package segment, and the line matches exactly when that segment contains the name |
| `Liveness.PidMatchIsSubstring` | src/main/java/applicationManager.java:152-156 | a line of a different process whose id contains the pid (51234 for 123) and runs the same program matches |
| `Liveness.ShortLineMatchesOnPidAlone` | src/main/java/applicationManager.java:161-166 | a line that is just the pid is one piece and matches whatever name is expected |
| `Liveness.LaterLinesIrrelevant` | src/main/java/applicationManager.java:150-172 | once a line matches, later lines and a later read failure do not change the answer |
| `InstanceLock.Branch` | src/main/java/applicationManager.java:88-92 | the Windows branch is never taken, because a lower-cased name cannot contain "Windows"; the Linux branch is taken exactly when the lower-cased name contains "linux", the Mac branch exactly when it contains "mac" but not "linux" |
| `InstanceLock.Acquire` | src/main/java/applicationManager.java:79-129 | on every path: the process exits only on finding an existing marker, which it leaves in place; `running` is only ever cleared; a marker that was not there before holds `prop` and names this process's pid |
| `InstanceLock.StoredPid` | src/main/java/applicationManager.java:101 | `prop.getProperty("managerPID")`: the stored value, or null (`None`) when the key is missing |
| `InstanceLock.OwnerAlive` | src/main/java/applicationManager.java:101-103 | checkAlive on the stored pid; an owner counts as alive only when the marker records a `managerPID` and the listing was started, since a null pid makes `contains(null)` throw (lines 156 and 162) and the catch at line 170 leaves the answer false |
| `InstanceLock.OnlyMacTouchesState` | src/main/java/applicationManager.java:88-92 | outside the Mac branch, and so on Linux, no marker is read or written and nothing changes |
| `InstanceLock.AcquireWithoutMarker` | src/main/java/applicationManager.java:112-121 | with no marker, a marker is written holding all of `prop` with `managerPID` = its own pid; the other keys are kept |
| `InstanceLock.AcquireWithLiveOwner` | src/main/java/applicationManager.java:94-105 | a marker whose owner is alive is left unchanged and the process exits |
| `InstanceLock.AcquireWithDeadOwner` | src/main/java/applicationManager.java:94-121 | a dead owner's marker is deleted and the retry takes the "absent" branch, so, with the delete succeeding and no other process acting, the recursion is one level deep; the new marker names its own pid and keeps every other loaded key |
| `InstanceLock.AcquireFailureStopsRunning` | src/main/java/applicationManager.java:124-127 | an exception while reading or writing the marker clears `running` |
| `InstanceLock.AcquireDecides` | src/main/java/applicationManager.java:79-129 | for a running process on the Mac branch (`running` starts true, line 17, and main calls createPIDFile first, line 31) exactly one outcome holds: exit leaving a live owner's marker, an error that stops the loop, or still running with a marker that names its own pid |
| `InstanceLock.MacOsXIsMac` | src/main/java/applicationManager.java:92 | "Mac OS X" takes the Mac branch |
| `InstanceLock.LinuxIsLinux` | src/main/java/applicationManager.java:90 | "Linux" takes the Linux branch |
| `InstanceLock.WindowsIsOther` | src/main/java/applicationManager.java:88-92 | "Windows 10" takes none of the three branches |
| `StdinControl.EndsLoop` | src/main/java/applicationManager.java:36-46 | a read stops the loop exactly when it throws an IOException or is a line that is "stop" once lower-cased, so a stopping line has four characters; end of input does not stop it |
| `StdinControl.StopExamples` | src/main/java/applicationManager.java:36-46 | "STOP" and "Stop" stop the loop; "please stop now", "" and end of input do not; an IOException does |
| `AppManager.RunOutcome` | src/main/java/applicationManager.java:26-71 | a run ends with the process exited, still in the loop because no read stopped it, or with no marker left; a run still in the loop was not stopped by acquisition; `prop` and the exit are those of acquisition |
| `AppManager.SecondInstanceExits` | src/main/java/applicationManager.java:26-31 | a second instance facing a live owner exits before the loop and the hook, leaving the marker |
| `AppManager.OwnerLifecycle` | src/main/java/applicationManager.java:26-69 | an instance that becomes the owner keeps a marker naming it until a read stops the loop, and then the hook deletes it |
| `AppManager.UnreadableMarkerIsDeleted` | src/main/java/applicationManager.java:94-98 | when the marker cannot be read, the loop is skipped and the hook deletes the marker, even if its owner is alive |
| `AppManager.OtherPlatformsDeleteOnStop` | src/main/java/applicationManager.java:52-69 | outside the Mac branch a stopped run still deletes whatever marker exists |
| `AppManager.Manager.constructor` | src/main/java/applicationManager.java:17-19 | a new process: `running` set, `prop` empty, the existing marker file |
| `AppManager.Manager.CreatePIDFile` | src/main/java/applicationManager.java:79-129 | the new state is `Acquire` of the old one; the recursion is bounded by the marker's presence |
| `AppManager.Manager.ControlLoop` | src/main/java/applicationManager.java:34-50 | `running` stays set exactly when no read stops the loop; the loop reads up to and including the first stopping read |
| `AppManager.Manager.Release` | src/main/java/applicationManager.java:52-69 | the marker is gone afterwards; the result says whether it existed, so a second call reports false |
| `AppManager.Manager.Run` | src/main/java/applicationManager.java:26-71 | the state after main is `RunOutcome`: acquisition, then the loop, then the hook's deletion |

## Left out

- Running `jps -l`, reading the pid from `ManagementFactory`, and reading `os.name` are foreign calls. Their results are fields of `Env`. A null `os.name` is not modelled.
- The `Properties` text format (timestamp comment, escaping), `mkdirs` and stream handling are not modelled. The marker is an abstract property map. A failed read is modelled as throwing before anything is loaded. A failed write is modelled as throwing when the file is opened. Partially loaded or partially written files are not modelled.
- A failed `delete()` is not modelled, in either place: the model assumes every delete succeeds. For a stale marker (line 108) a failed delete leaves the marker in place, and `createPIDFile` calls itself again without bound, until the thread fails (for example a stack overflow, or a `FileNotFoundException` once file handles run out, which lines 124-126 catch). In the shutdown hook (line 59) a failed delete leaves the marker behind and prints that it does not exist (line 62).
- AppManager.Manager.Release: assumes the hook's `delete()` succeeds, so the marker is always gone afterwards and the result is true exactly when a marker existed.
- AppManager.UnreadableMarkerIsDeleted: assumes the hook's `delete()` succeeds.
- AppManager.OtherPlatformsDeleteOnStop: assumes the hook's `delete()` succeeds.
- InstanceLock.AcquireWithDeadOwner: assumes two things, which together make the recursion one level deep: the delete of the stale marker succeeds, and no other process creates a marker between the delete (line 108) and the repeated `exists()` (lines 110 and 94).
- The model sees the marker file from one process at a time: `State.marker` changes only through this process's own steps, and `Env` is fixed for the whole run. Other instances acting in between are not modelled. Between the `exists()` test (line 94) and `new FileOutputStream` (line 115), a second instance can also find no marker and write its own. Both then run as owners, and the last write decides what the marker says. Between the delete (line 108) and the repeated test (lines 110 and 94), another instance can create a marker, so the retry takes the "present" branch and may exit at line 105. The source can thus end up with two owners, and the model cannot show it.
- `Lower`, `EqualsIgnoreCase` and `SplitWordBoundaries` cover ASCII only. Java's Unicode case mappings and its Unicode notion of a word character are not modelled.
- AppManager.Manager.ControlLoop: stops when the given input runs out. At end of input the source keeps reading null forever, with `running` still set.
- The shutdown hook's thread, JVM exit, signals, `volatile` and `System.out` output are not modelled. The hook is modelled as running once, after a loop that has ended. A process killed during the loop never registers the hook, so it leaves the marker behind.
- `writePIDFile` has an empty body. `changedPID` and the piped streams are unused. None of them has behaviour to model.
- `runAppManager.java` is not part of this model. It calls a constructor and setters that `applicationManager.java` does not define.
