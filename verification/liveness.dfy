/**
  The liveness probe `checkAlive(pid, processName)`: it runs `jps -l` and reads
  its output line by line until a line is found that appears to belong to the
  given process. Running the command is outside the model; its output arrives
  as a `Listing`.
*/
module Liveness {
  import opened Basics
  import opened JavaStrings

  /**
    What `jps -l` yielded: either the command could not be started, or the
    lines read from its output, after which reading either reached the end of
    the stream or threw.
  */
  datatype Listing = ExecFailed | Output(lines: seq<string>, readFails: bool)

  /**
    The per-line test of checkAlive: split the line at word boundaries; piece 0
    must contain `pid`, and when there are at least three pieces, piece 2 must
    contain `processName` as well. So a matching line contains the pid, and a
    matching line of three pieces or more contains the name too.
  */
  predicate LineMatches(line: string, pid: string, processName: string): (m: bool)
    ensures m ==> exists i :: OccursAt(line, pid, i)
    ensures m && |SplitWordBoundaries(line)| >= 3 ==> exists i :: OccursAt(line, processName, i)
  {
    var parts := SplitWordBoundaries(line);
    assert line == parts[0] + Concat(parts[1..]);
    PartsContain(parts, pid, processName);
    ContainsIffOccurs(line, pid);
    ContainsIffOccurs(line, processName);
    if |parts| >= 3 then Contains(parts[0], pid) && Contains(parts[2], processName)
    else Contains(parts[0], pid)
  }

  /** What the first or the third of the pieces contains, their concatenation contains. */
  lemma PartsContain(parts: seq<string>, pid: string, processName: string)
    requires |parts| >= 1
    ensures Contains(parts[0], pid) ==> Contains(Concat(parts), pid)
    ensures |parts| >= 3 && Contains(parts[2], processName) ==> Contains(Concat(parts), processName)
  {
    if Contains(parts[0], pid) {
      ContainsInPart([], parts[0], Concat(parts[1..]), pid);
      assert [] + parts[0] + Concat(parts[1..]) == Concat(parts);
    }
    if |parts| >= 3 && Contains(parts[2], processName) {
      var rest := Concat(parts[3..]);
      assert Concat(parts[2..]) == parts[2] + rest;
      assert Concat(parts[1..]) == parts[1] + (parts[2] + rest);
      ContainsInPart(parts[0] + parts[1], parts[2], rest, processName);
      assert parts[0] + parts[1] + parts[2] + rest == Concat(parts);
    }
  }

  /** The answer checkAlive gives: some line of a successfully started listing matches. */
  predicate Alive(pid: string, processName: string, listing: Listing) {
    listing.Output? && exists i :: 0 <= i < |listing.lines| && LineMatches(listing.lines[i], pid, processName)
  }

  /**
    checkAlive. `read` counts the lines taken from the listing: the scan stops
    right after the first matching line. An exception while starting or reading
    the listing is caught and leaves the answer false.
  */
  method CheckAlive(pid: string, processName: string, listing: Listing) returns (alive: bool, ghost read: nat)
    ensures alive <==> listing.Output? && exists i :: 0 <= i < |listing.lines| && LineMatches(listing.lines[i], pid, processName)
    ensures listing.Output? ==> read <= |listing.lines|
    ensures alive ==> 0 < read && LineMatches(listing.lines[read - 1], pid, processName)
    ensures alive ==> forall j :: 0 <= j < read - 1 ==> !LineMatches(listing.lines[j], pid, processName)
    ensures !alive && listing.Output? ==> read == |listing.lines|
  {
    alive, read := false, 0;
    if listing.ExecFailed? {
      return;
    }
    var lines := listing.lines;
    var i := 0;
    while i < |lines|
      invariant 0 <= i <= |lines|
      invariant forall j :: 0 <= j < i ==> !LineMatches(lines[j], pid, processName)
      invariant !alive
    {
      var line := lines[i];
      var lineParts := SplitWordBoundaries(line);
      var linePid := lineParts[0];
      i := i + 1;
      if |lineParts| >= 3 {
        var lineName := lineParts[2];
        if Contains(linePid, pid) && Contains(lineName, processName) {
          alive := true;
          break;
        }
      } else {
        if Contains(linePid, pid) {
          alive := true;
          break;
        }
      }
    }
    // Past the last line readLine returns null or throws; either way the answer stands.
    read := i;
  }

  /** The runs of "<pid> <name><tail>", for a word-character pid and name. */
  lemma {:induction false} RunsOfDefaultPackageLine(pid: string, name: string, tail: string)
    requires pid != [] && name != []
    requires forall i :: 0 <= i < |pid| ==> IsWordChar(pid[i])
    requires forall i :: 0 <= i < |name| ==> IsWordChar(name[i])
    requires tail != [] ==> !IsWordChar(tail[0])
    ensures Runs(pid + (" " + (name + tail))) == [pid] + ([" "] + ([name] + Runs(tail)))
  {
    assert Uniform(" ");
    RunsOfPrefixedRun(name, tail);
    RunsOfPrefixedRun(" ", name + tail);
    RunsOfPrefixedRun(pid, " " + (name + tail));
  }

  /**
    How `jps -l` prints a class of the default package, "<pid> <name>" possibly
    followed by arguments, splits at word boundaries: the pid, one space, the name.
  */
  lemma {:induction false} DefaultPackageLineParts(pid: string, name: string, tail: string)
    requires pid != [] && name != []
    requires forall i :: 0 <= i < |pid| ==> IsWordChar(pid[i])
    requires forall i :: 0 <= i < |name| ==> IsWordChar(name[i])
    requires tail != [] ==> !IsWordChar(tail[0])
    ensures var parts := SplitWordBoundaries(pid + " " + name + tail);
      |parts| >= 3 && parts[0] == pid && parts[1] == " " && parts[2] == name
  {
    RunsOfDefaultPackageLine(pid, name, tail);
    var line := pid + " " + name + tail;
    assert line == pid + (" " + (name + tail)) by { ConcatAssoc(pid, " ", name, tail); }
    var parts := [pid] + ([" "] + ([name] + Runs(tail)));
    assert SplitWordBoundaries(line) == parts;
  }

  /** Regrouping a concatenation of four strings. */
  lemma ConcatAssoc(a: string, b: string, c: string, d: string)
    ensures a + b + c + d == a + (b + (c + d))
  {
  }

  /** Such a line is recognised as the process `pid` running `name`. */
  lemma {:induction false} DefaultPackageLineMatches(pid: string, name: string, tail: string)
    requires pid != [] && name != []
    requires forall i :: 0 <= i < |pid| ==> IsWordChar(pid[i])
    requires forall i :: 0 <= i < |name| ==> IsWordChar(name[i])
    requires tail != [] ==> !IsWordChar(tail[0])
    ensures LineMatches(pid + " " + name + tail, pid, name)
  {
    DefaultPackageLineParts(pid, name, tail);
    assert OccursAt(pid, pid, 0) && OccursAt(name, name, 0);
  }

  /**
    For a main class inside a package, `jps -l` prints "<pid> <pkg>.<rest>", and
    piece 2 is the first package segment, not the class name: the line matches
    exactly when that segment contains the expected name.
  */
  lemma {:induction false} PackagedLineChecksFirstSegment(pid: string, pkg: string, rest: string, name: string)
    requires pid != [] && pkg != []
    requires forall i :: 0 <= i < |pid| ==> IsWordChar(pid[i])
    requires forall i :: 0 <= i < |pkg| ==> IsWordChar(pkg[i])
    ensures var parts := SplitWordBoundaries(pid + " " + pkg + "." + rest); |parts| >= 3 && parts[2] == pkg
    ensures LineMatches(pid + " " + pkg + "." + rest, pid, name) <==> Contains(pkg, name)
  {
    DefaultPackageLineParts(pid, pkg, "." + rest);
    assert pid + " " + pkg + "." + rest == pid + " " + pkg + ("." + rest);
    assert OccursAt(pid, pid, 0);
  }

  /**
    The pid test is a substring test: a marker naming process 123 is taken to be
    alive when, say, process 51234 runs a program of the same name.
  */
  lemma {:induction false} PidMatchIsSubstring(before: string, pid: string, after: string, name: string)
    requires pid != [] && name != []
    requires forall i :: 0 <= i < |before + pid + after| ==> IsWordChar((before + pid + after)[i])
    requires forall i :: 0 <= i < |name| ==> IsWordChar(name[i])
    ensures LineMatches(before + pid + after + " " + name, before + pid + after, name)
    ensures LineMatches(before + pid + after + " " + name, pid, name)
  {
    var other := before + pid + after;
    DefaultPackageLineParts(other, name, "");
    assert other + " " + name + "" == other + " " + name;
    assert OccursAt(other, other, 0) && OccursAt(name, name, 0);
    assert OccursAt(other, pid, |before|);
    ContainsIffOccurs(other, pid);
  }

  /** A line with fewer than three pieces is matched on the pid alone, whatever the name. */
  lemma {:induction false} ShortLineMatchesOnPidAlone(pid: string, name: string)
    requires pid != [] && forall i :: 0 <= i < |pid| ==> IsWordChar(pid[i])
    ensures SplitWordBoundaries(pid) == [pid]
    ensures LineMatches(pid, pid, name)
  {
    RunsOfPrefixedRun(pid, "");
    assert pid + "" == pid;
    assert OccursAt(pid, pid, 0);
  }

  /** Output lines past a matching one do not change the answer, nor does a failure to read them. */
  lemma {:induction false} LaterLinesIrrelevant(pid: string, name: string, lines: seq<string>, more: seq<string>, fails: bool)
    requires Alive(pid, name, Output(lines, false))
    ensures Alive(pid, name, Output(lines + more, fails))
  {
    var i :| 0 <= i < |lines| && LineMatches(lines[i], pid, name);
    assert (lines + more)[i] == lines[i];
  }
}
