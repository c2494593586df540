/** The debugger object itself: the `TimeTravelPdb` fields that the snapshot
    commands update in place, and its methods, each proved against the registry
    functions of `Bookkeeping`.

    What the process does outside this object becomes a parameter: the pid that
    `os.fork()` returned (`forked`, 0 in the child), the clock reading of a stop event,
    and the `os.kill(pid, 0)` liveness probe (`alive`). The SIGTERMs the debugger
    sends are returned as the list of pids they go to. */
module TimeTravel {
  import opened Text
  import opened Bookkeeping

  /** What `ujump` does with its argument. */
  datatype JumpOutcome =
    | NoSuchUniverse(message: string)   // the argument names no known universe
    | Resumed(pid: Pid)                 // the snapshot that was sent SIGCONT

  class TimeTravelPdb {
    var tomographyEnabled: bool                // take a snapshot at every stop
    var pids: seq<Pid>                         // live snapshots, newest at the end
    var idOf: map<Pid, Serial>
    var pidOf: map<Serial, Pid>
    var descriptions: map<Serial, string>
    var serial: int                            // snapshots taken so far
    var child: bool                            // this process is a resumed snapshot
    var umax: nat                              // how many snapshots to retain
    var prompt: string
    var strayIds: Option<map<Pid, Serial>>     // `_tomography_ids`, created by quit only

    /** The bookkeeping fields as one registry value. */
    ghost function Books(): Registry
      reads this
    {
      Registry(pids, idOf, pidOf, descriptions, serial)
    }

    ghost predicate Valid()
      reads this
    {
      Tracked(Books())
    }

    constructor ()
      ensures Valid() && Books() == Empty
      ensures tomographyEnabled && !child && umax == 100
      ensures prompt == "(Pdb) " && strayIds == None
    {
      tomographyEnabled := true;
      pids := [];
      idOf := map[];
      pidOf := map[];
      descriptions := map[];
      serial := 0;
      child := false;
      umax := 100;
      prompt := "(Pdb) ";
      strayIds := None;
    }

    method SetTomographyOn()
      modifies this`tomographyEnabled
      ensures tomographyEnabled
    {
      tomographyEnabled := true;
    }

    method SetTomography()
      modifies this`tomographyEnabled
      ensures !tomographyEnabled
    {
      tomographyEnabled := false;
    }

    /** `tom`: flip snapshotting and report the new setting. */
    method DoTom() returns (message: string)
      modifies this`tomographyEnabled
      ensures tomographyEnabled == !old(tomographyEnabled)
      ensures message == if tomographyEnabled then "TOM ON" else "TOM OFF"
    {
      tomographyEnabled := !tomographyEnabled;
      if tomographyEnabled {
        message := "TOM ON";
      } else {
        message := "TOM OFF";
      }
    }

    /** `tomoff`: report, then switch snapshotting off. */
    method DoTomoff() returns (message: string)
      modifies this`tomographyEnabled
      ensures !tomographyEnabled && message == "TOM OFF"
    {
      message := "TOM OFF";
      tomographyEnabled := false;
    }

    /** `_forget_pid`: the three index deletions; a pid without entries is a `KeyError`. */
    method ForgetPid(pid: Pid)
      requires CanForget(Books(), pid)
      modifies this`idOf, this`pidOf, this`descriptions
      ensures Books() == Forget(old(Books()), pid)
    {
      var s := idOf[pid];
      idOf := idOf - {pid};
      pidOf := pidOf - {s};
      descriptions := descriptions - {s};
    }

    /** `_tomography_snapshot` after the fork returned `forked`. The parent registers
        the new snapshot, labels the prompt and the description with its index, and
        evicts (and returns for SIGTERM) the oldest snapshots beyond `umax`. The child
        advances its own copy of the counter and updates its prompt. */
    method TomographySnapshot(forked: Pid, filename: string, lineno: int, at: Clock)
      returns (killed: seq<Pid>)
      requires Valid() && (forked != 0 ==> forked !in idOf)
      modifies this`pids, this`idOf, this`pidOf, this`descriptions, this`serial
      modifies this`child, this`prompt
      ensures Valid()
      ensures forked == 0 ==> Books() == old(Books()).(serial := old(serial) + 1) && killed == []
      ensures forked != 0 ==>
                && Books() == Evict(Register(old(Books()), forked,
                     Description(old(serial) + 1, forked, at, Location(filename, lineno))), umax)
                && killed + pids == old(pids) + [forked]
      ensures prompt == Prompt(serial)
      ensures child == (old(child) || forked == 0)
    {
      var description := Description(serial + 1, forked, at, Location(filename, lineno));
      if forked == 0 {
        killed := [];
        child := true;
        serial := serial + 1;
        prompt := Prompt(serial);
      } else {
        killed := ParentSnapshot(forked, description);
      }
    }

    /** The parent branch: register the new snapshot, show its index in the prompt,
        then evict. */
    method ParentSnapshot(pid: Pid, description: string) returns (killed: seq<Pid>)
      requires Valid() && pid !in idOf
      modifies this`pids, this`idOf, this`pidOf, this`descriptions, this`serial, this`prompt
      ensures Valid()
      ensures Books() == Evict(Register(old(Books()), pid, description), umax)
      ensures serial == old(serial) + 1 && prompt == Prompt(serial)
      ensures killed + pids == old(pids) + [pid]
    {
      RegisterSnapshot(pid, description);
      prompt := Prompt(serial);
      killed := EvictOldest();
    }

    /** The start of the parent branch: append the new pid, advance the counter, and
        index the pid and its description under the new serial. */
    method RegisterSnapshot(pid: Pid, description: string)
      modifies this`pids, this`idOf, this`pidOf, this`descriptions, this`serial
      ensures Books() == Register(old(Books()), pid, description)
    {
      pids := pids + [pid];
      serial := serial + 1;
      idOf := idOf[pid := serial];
      pidOf := pidOf[serial := pid];
      descriptions := descriptions[serial := description];
    }

    /** The eviction loop at the end of the parent branch: while more than `umax`
        snapshots are listed, delete the oldest from the list and forget it. Returns
        the evicted pids, oldest first: the ones sent SIGTERM. */
    method EvictOldest() returns (killed: seq<Pid>)
      requires Tracked(Books())
      modifies this`pids, this`idOf, this`pidOf, this`descriptions
      ensures Books() == Evict(old(Books()), umax)
      ensures killed + pids == old(pids)
    {
      ghost var start := Books();
      var listed := pids;
      DropNothing(start);
      var k := 0;
      while |pids| > umax
        invariant 0 <= k <= |start.pids|
        invariant Books() == DropOldest(start, k)
        invariant k == 0 || |start.pids| - k >= umax
        decreases |start.pids| - k
      {
        DropOldestStep(start, k);
        var victim := pids[0];
        pids := pids[1..];
        ForgetPid(victim);
        k := k + 1;
      }
      EvictStopsAtCapacity(start, umax, k);
      killed := listed[..k];
      TakeDrop(listed, k);
    }

    /** `interaction`: snapshot at the stop when snapshotting is on. */
    method Interaction(forked: Pid, filename: string, lineno: int, at: Clock)
      returns (killed: seq<Pid>)
      requires Valid() && (tomographyEnabled && forked != 0 ==> forked !in idOf)
      modifies this`pids, this`idOf, this`pidOf, this`descriptions, this`serial
      modifies this`child, this`prompt
      ensures Valid()
      ensures old(tomographyEnabled) ==> Books() == AfterSnapshot(old(Books()), forked,
                Description(old(serial) + 1, forked, at, Location(filename, lineno)), umax)
      ensures old(tomographyEnabled) ==>
                && prompt == Prompt(serial)
                && child == (old(child) || forked == 0)
                && (forked == 0 ==> killed == [])
                && (forked != 0 ==> killed + pids == old(pids) + [forked])
      ensures !old(tomographyEnabled) ==>
                killed == [] && Books() == old(Books()) && child == old(child) && prompt == old(prompt)
    {
      killed := [];
      if tomographyEnabled {
        killed := TomographySnapshot(forked, filename, lineno, at);
      }
    }

    /** `_tom_quit` (run by `quit` and by end of input). A resumed snapshot kills
        nothing; the root process sends SIGTERM to every listed snapshot, then empties
        the list and the descriptions, and creates the misspelt `_tomography_ids`
        while the real id indexes stay as they were. */
    method TomQuit() returns (killed: seq<Pid>)
      requires Valid()
      modifies this`pids, this`descriptions, this`strayIds
      ensures Valid()
      ensures old(child) ==> killed == [] && Books() == old(Books()) && strayIds == old(strayIds)
      ensures !old(child) ==>
                killed == old(pids) && Books() == Quit(old(Books())) && strayIds == Some(map[])
    {
      killed := [];
      if child {
        return;
      }
      killed := pids;
      pids := [];
      descriptions := map[];
      strayIds := Some(map[]);
    }

    /** `ulist`: the description of every listed snapshot, oldest first. */
    method UList() returns (lines: seq<string>)
      requires Valid()
      ensures |lines| == |pids|
      ensures forall k :: 0 <= k < |pids| ==>
                pids[k] in idOf && idOf[pids[k]] in descriptions
                && lines[k] == descriptions[idOf[pids[k]]]
    {
      lines := [];
      var k := 0;
      while k < |pids|
        invariant 0 <= k <= |pids| && |lines| == k
        invariant forall j :: 0 <= j < k ==>
                    pids[j] in idOf && idOf[pids[j]] in descriptions
                    && lines[j] == descriptions[idOf[pids[j]]]
      {
        lines := lines + [descriptions[idOf[pids[k]]]];
        k := k + 1;
      }
    }

    /** `ujump arg`: resume the universe with index `int(arg)`, that is serial
        `int(arg) + 1`. An argument that is no integer or names no known serial is
        reported and changes nothing. Otherwise, once control returns, every listed
        snapshot the probe reports dead is deleted and forgotten, newest first. */
    method UJump(arg: string, alive: Pid -> bool) returns (outcome: JumpOutcome)
      requires Valid()
      modifies this`pids, this`idOf, this`pidOf, this`descriptions
      ensures Valid()
      ensures Target(old(Books()), arg) == None ==>
                outcome == NoSuchUniverse("ERR: No such universe: " + arg) && Books() == old(Books())
      ensures Target(old(Books()), arg).Some? ==>
                outcome == Resumed(Target(old(Books()), arg).value) && Books() == Sweep(old(Books()), alive)
    {
      ghost var before := Books();
      var index := ParseInt(arg);
      if index.Some? && index.value + 1 in pidOf {
        assert Target(before, arg) == Some(pidOf[index.value + 1]);
        outcome := Resumed(pidOf[index.value + 1]);
        SweepDead(alive);
        assert Books() == Sweep(before, alive);
      } else {
        outcome := NoSuchUniverse("ERR: No such universe: " + arg);
      }
    }

    /** The sweep at the end of `ujump`: walk the list from the newest entry to the
        oldest, and delete and forget every pid the probe reports dead. */
    method SweepDead(alive: Pid -> bool)
      requires Tracked(Books())
      modifies this`pids, this`idOf, this`pidOf, this`descriptions
      ensures Books() == Sweep(old(Books()), alive)
    {
      ghost var start := Books();
      SweptNothing(start, alive);
      var i := |pids|;
      while i > 0
        invariant 0 <= i <= |start.pids|
        invariant Books() == SweptFrom(start, i, alive)
        decreases i
      {
        SweptFromStep(start, i, alive);
        i := i - 1;
        if !alive(pids[i]) {
          DeleteAt(i);
        }
      }
    }

    /** The dead branch of the sweep: delete the entry at index `i` and forget its pid. */
    method DeleteAt(i: nat)
      requires Tracked(Books()) && i < |pids|
      modifies this`pids, this`idOf, this`pidOf, this`descriptions
      ensures Books() == ForgetAt(old(Books()), i)
    {
      var pid := pids[i];
      pids := pids[..i] + pids[i + 1..];
      ForgetPid(pid);
    }
  }
}
