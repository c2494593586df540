# Time-travel debugger: snapshot bookkeeping

`TimeTravelPdb` is a Python debugger that forks the debugged process at every stop.
Each fork is a frozen *snapshot*, also called a *universe*. Every snapshot is listed by its pid and numbered with a
serial. The user can list the universes (`ulist`) and jump back to one (`ujump N`),
which resumes that snapshot while the current process waits. The debugger keeps:

- an ordered pid list, oldest first;
- three indexes that must agree with the list and with each other: pid to serial,
  serial to pid, and serial to a one-line description;
- a serial counter, a flag saying "this process is a resumed snapshot", a capacity
  `umax` (100), and a flag that switches snapshotting on and off.

This project models that bookkeeping and proves what it guarantees:

- Taking a snapshot appends the new pid, numbers it with the next serial and indexes it.
  It then evicts the oldest snapshots down to the capacity, so the evicted ones are a prefix of the list.
- Forgetting a pid removes it from all three indexes at once.
- After a jump, the sweep keeps exactly the snapshots that are still alive, in their
  order, and forgets the others.
- The index printed by `ulist` and shown in the prompt is the one `ujump` takes back.
- Quitting in the root process kills every listed snapshot; a resumed snapshot kills
  none. The root clears the list and the descriptions but leaves the id indexes stale,
  because the code assigns a misspelt `_tomography_ids`.

Layout:

- `text.dfy`, module `Text`: Python's `str` and `int` on integers, the prompt, the
  description line and its 75-character location tail.
- `registry.dfy`, module `Bookkeeping`: the registry as a value (`Registry`), the
  invariants `Tracked` and `Consistent`, and one function per operation: `Register`,
  `Forget`, `Evict`, `Sweep`, `Quit`, `Target`. These come with lemmas about each function.
- `timetravel.dfy`, module `TimeTravel`: class `TimeTravelPdb` with the debugger's
  fields. Each of its methods updates them in place, and each method's postcondition
  ties the new state (`Books()`) to the matching registry function.

Process plumbing is turned into parameters:

- The pid that `os.fork()` returned is an input (`forked`; 0 in the child).
- The `os.kill(pid, 0)` probe is a predicate `alive`.
- The time of a stop is a `Clock` value.
- The pids sent SIGTERM are returned as a list, oldest first.

`_forget_pid` raises `KeyError` for an unknown pid, so `ForgetPid` requires a known pid.

The parent branch does no duplicate check. The model assumes that the pid `fork` returns
is not already indexed, and the methods that register it require this. The code does not
guarantee it: the SIGCHLD handler installed by `ujump` stays installed and waits on
whatever pid its closure variable last held (after the sweep, the oldest listed pid), so
a listed pid can be reaped and the operating system may hand it out again.

## Model

| member | source | states |
|---|---|---|
| TimeTravel.TimeTravelPdb.constructor | timetravelpdb.py:13-24 | Snapshotting is on, no snapshot is known, the counter is 0, the process is not a child, and the capacity is 100. |
| TimeTravel.TimeTravelPdb.SetTomographyOn | timetravelpdb.py:39-40 | Snapshotting becomes enabled. |
| TimeTravel.TimeTravelPdb.SetTomography | timetravelpdb.py:42-43 | Snapshotting becomes disabled. |
| TimeTravel.TimeTravelPdb.DoTom | timetravelpdb.py:105-110 | `tom` flips the flag and reports the new setting as "TOM ON" or "TOM OFF". |
| TimeTravel.TimeTravelPdb.DoTomoff | timetravelpdb.py:121-123 | `tomoff` reports "TOM OFF" and leaves snapshotting disabled. |
| TimeTravel.TimeTravelPdb.Interaction | timetravelpdb.py:34-37 | When enabled, a stop takes a snapshot: the state becomes `AfterSnapshot` of the old one, the prompt shows the new counter minus one, a child branch sets the child flag and kills nothing, and in the parent the killed pids followed by the remaining list are the old list plus the new pid. When disabled, nothing changes and nothing is killed. |
| TimeTravel.TimeTravelPdb.TomographySnapshot | timetravelpdb.py:45-85 | The child advances only its own counter and becomes a child. The parent registers the fresh pid under the next serial, then evicts. The killed pids followed by the remaining list are exactly the old list plus the new pid. In both branches the prompt shows the new counter minus one. The invariant `Tracked` is kept. |
| TimeTravel.TimeTravelPdb.ParentSnapshot | timetravelpdb.py:59-85 | Registration, the prompt label and eviction in sequence. The serial advances by one, and the killed pids plus the survivors make up the extended list. |
| TimeTravel.TimeTravelPdb.RegisterSnapshot | timetravelpdb.py:59-66 | The new state is `Register` of the old one: the pid is appended, the counter advances, and the three indexes gain the new entries. |
| TimeTravel.TimeTravelPdb.EvictOldest | timetravelpdb.py:80-85 | The eviction loop ends in `Evict` of the old state. The killed pids are a prefix of the old list, and the survivors are the rest. |
| TimeTravel.TimeTravelPdb.ForgetPid | timetravelpdb.py:87-91 | For a pid with entries in all three indexes, the new state is `Forget` of the old one. |
| TimeTravel.TimeTravelPdb.TomQuit | timetravelpdb.py:93-103 | A child changes nothing and kills nothing. The root process kills every listed pid and empties the list and descriptions, keeping the id indexes. It creates the stray `_tomography_ids` as an empty map. |
| TimeTravel.TimeTravelPdb.UList | timetravelpdb.py:125-127 | One line per listed pid, in list order; each line is that pid's description. |
| TimeTravel.TimeTravelPdb.UJump | timetravelpdb.py:149-152 | An argument that is not an integer, or whose value plus one is not a known serial, yields "ERR: No such universe: " + arg and changes nothing. Otherwise the selected pid is resumed and the state becomes `Sweep` of the old one. |
| TimeTravel.TimeTravelPdb.SweepDead | timetravelpdb.py:162-169 | The reverse in-place deletion loop yields exactly `Sweep` of the state before it. |
| TimeTravel.TimeTravelPdb.DeleteAt | timetravelpdb.py:168-169 | Deleting the entry at index i and forgetting its pid yields `ForgetAt`. |
| Bookkeeping.EmptyIsConsistent | timetravelpdb.py:17-21 | The initial empty registry is consistent. |
| Bookkeeping.TrackedHasNoDuplicates | timetravelpdb.py:17-18 | A tracked pid list holds no pid twice. |
| Bookkeeping.OldestHasSmallestSerial | timetravelpdb.py:80-82 | The front of a consistent list has the smallest serial of all indexed pids, so eviction removes the oldest snapshot. |
| Bookkeeping.Forget | timetravelpdb.py:87-91 | The pid and its serial leave exactly the three indexes. The list, the counter and every other entry stay unchanged. |
| Bookkeeping.ListedApart | timetravelpdb.py:87-91 | Forgetting other listed pids never removes the serial of a pid still listed. |
| Bookkeeping.Register | timetravelpdb.py:59-66 | Registering an unknown pid keeps `Tracked`. |
| Bookkeeping.RegisterKeepsConsistent | timetravelpdb.py:59-66 | Registering an unknown pid keeps the list and all three indexes in full agreement. |
| Bookkeeping.DropOldestKeepsTracked | timetravelpdb.py:80-83 | Removing the k oldest pids from the list and the indexes keeps `Tracked`. |
| Bookkeeping.DropOldestKeepsConsistent | timetravelpdb.py:80-83 | Removing the k oldest pids keeps full agreement. |
| Bookkeeping.DropOldestStep | timetravelpdb.py:81-83 | One loop round, deleting the front and forgetting it, turns the k-oldest-removed registry into the (k+1)-oldest-removed one. |
| Bookkeeping.Evict | timetravelpdb.py:80-83 | Eviction keeps `Tracked`. |
| Bookkeeping.EvictStopsAtCapacity | timetravelpdb.py:80 | The loop stops after removing exactly the excess over `umax`, and after removing none if the list already fits. |
| Bookkeeping.EvictDropsOldest | timetravelpdb.py:80-83 | After eviction the list has min(length, umax) entries and is the tail of the old list. Every evicted pid is gone from all three indexes, and every survivor keeps its serial. |
| Bookkeeping.EvictKeepsConsistent | timetravelpdb.py:80-83 | Eviction keeps full agreement. |
| Bookkeeping.AfterSnapshot | timetravelpdb.py:56-85 | A snapshot, in either fork branch, keeps `Tracked`. |
| Bookkeeping.SnapshotKeepsConsistent | timetravelpdb.py:56-85 | A snapshot, in either fork branch, keeps full agreement. |
| Bookkeeping.SnapshotAdvancesSerial | timetravelpdb.py:56-77 | The counter rises by exactly one in both branches, and every indexed serial stays between 1 and the counter, so no serial is reused. |
| Bookkeeping.SnapshotAppendsNewest | timetravelpdb.py:59-82 | With a positive capacity, the new pid is the last entry and the rest is a tail of the old list. |
| Bookkeeping.SnapshotIndexesNewest | timetravelpdb.py:60-66 | After eviction, the new pid maps to the new serial, that serial maps back to the pid, and the description is stored under it. |
| Bookkeeping.SnapshotKeepsCapacity | timetravelpdb.py:80-83 | After registration and eviction, the list holds at most `umax` entries. It is the extended list minus exactly its max(0, length - umax) oldest entries, none of which stays indexed. |
| Bookkeeping.DropNothing | timetravelpdb.py:80 | Removing zero entries changes nothing. |
| Bookkeeping.Keep | timetravelpdb.py:162-169 | The kept list is no longer than the old one and holds exactly its live pids. |
| Bookkeeping.KeepAscending | timetravelpdb.py:162-169 | Filtering preserves increasing serial order. |
| Bookkeeping.SweptFromKeepsTracked | timetravelpdb.py:162-169 | Every intermediate state of the sweep keeps `Tracked`. |
| Bookkeeping.SweptFromKeepsConsistent | timetravelpdb.py:162-169 | Every intermediate state of the sweep keeps full agreement. |
| Bookkeeping.SweptFromKeepsEntries | timetravelpdb.py:162-169 | Entries the sweep keeps stay fully indexed under their old serials. |
| Bookkeeping.SweptNothing | timetravelpdb.py:162 | Before any index is visited, the sweep state is the original registry. |
| Bookkeeping.SweptFromStep | timetravelpdb.py:162-169 | Visiting index i-1 leaves a live pid alone. A dead pid is deleted at exactly that index and forgotten, because the higher indexes were already handled, so the in-place deletion is safe. |
| Bookkeeping.Sweep | timetravelpdb.py:162-169 | The sweep result keeps `Tracked`. |
| Bookkeeping.SweepForgetsExactlyTheDead | timetravelpdb.py:162-169 | After the sweep, the list is the old list filtered to live pids, in order. Every dead pid and its serial are gone from all three indexes, and every survivor keeps its serial. |
| Bookkeeping.SweepKeepsConsistent | timetravelpdb.py:162-169 | The sweep keeps full agreement. |
| Bookkeeping.QuitLeavesIndexStale | timetravelpdb.py:93-103 | Quit keeps `Tracked`. The result is consistent if and only if no snapshot was listed, because the id indexes are left stale. |
| Bookkeeping.SnapshotKeepsLabelled | timetravelpdb.py:59-83 | If every stored description starts with its universe index, that stays true after registering a description so labelled and evicting. |
| Bookkeeping.SweepKeepsLabelled | timetravelpdb.py:162-169 | The sweep keeps every description labelled with its index. |
| Bookkeeping.ShownIndexSelects | timetravelpdb.py:149 | For every listed pid, jumping to its printed index (serial minus one) selects that pid. |
| Bookkeeping.TargetIsListed | timetravelpdb.py:149 | In a consistent registry, a successful jump selects a listed pid whose serial is the argument's value plus one. |
| Bookkeeping.SelectedIsListed | timetravelpdb.py:149 | In a consistent registry, every serial in the serial-to-pid index belongs to a listed pid that maps back to it. |
| Bookkeeping.PromptIndexSelectsNewSnapshot | timetravelpdb.py:59-85 | With a capacity of at least one, once eviction is done the index shown in the new prompt (the new serial minus one) selects the new snapshot. |
| Bookkeeping.ListedLineSelects | timetravelpdb.py:125-152 | In a labelled registry, the field before the first colon of a `ulist` line selects that line's pid. |
| Text.NatToString | timetravelpdb.py:63 | The decimal form is non-empty, all digits, and one digit long exactly for n < 10. |
| Text.IntToString | timetravelpdb.py:63 | Python's `str` of an int has a leading minus exactly for negatives and ends in a digit. |
| Text.DigitsValueOfNatToString | timetravelpdb.py:149 | The value of the printed digits is the number. |
| Text.ParseIntOfIntToString | timetravelpdb.py:149 | `int(str(n)) == n` for every integer. |
| Text.ParseIntNeedsDigit | timetravelpdb.py:149-150 | A string without an ASCII digit is no integer, so `ujump` reports the error. |
| Text.LastCharacters | timetravelpdb.py:65 | `s[-75:]` has length min(\|s\|, 75) and is a suffix of s. |
| Text.Location | timetravelpdb.py:65 | The location is a suffix of "file:line" of at most 75 characters, and is the whole text when that fits. |
| Text.DescriptionStartsWithIndex | timetravelpdb.py:66 | A description's text before the first colon is the printed universe index. |
| Text.DescriptionIndexReadsBack | timetravelpdb.py:66 | The index at the head of a description parses back as serial minus one. |

## Left out

- Signals and their handlers (`_handle_cont`, `_handle_int`, `_handle_child`, `_continue`), `signal.pause`, `os.waitpid` and `os.getppid` are asynchronous process control. `do_uup` is made only of these, so it is not modelled.
- A failing `os.fork()` raises before any field changes, so it is not modelled.
- `dlog`, `print` and `pprint` output is not modelled. The exceptions are the strings `tom`, `tomoff`, `ulist` and `ujump` print, which are returned.
- The `pdb.Pdb` host behaviour is not modelled: the `super()` calls of `interaction`, `do_quit` and `do_EOF`, and `canonic` (the file name is an input).
- `do_quit` and `do_EOF` are modelled only through `TomQuit`, which both call.
- `time.localtime()` is an input clock (hour, minute, second).
- `int(arg)` accepts ASCII whitespace, an optional sign, and digits with single underscores. Unicode digits and Unicode whitespace are not modelled.
- TimeTravel.TimeTravelPdb.UJump: the liveness probe `alive` is fixed for the whole sweep. A snapshot that dies during the sweep is not modelled.
- TimeTravel.TimeTravelPdb.UJump: waiting for the resumed universe (`SIGCONT` and `signal.pause`) is not modelled. The sweep follows at once.
- A negative `umax` is not modelled (`umax` is a `nat`). The code never sets one.
- The class invariant `Valid` is `Tracked`, which is kept by every method, including quit. Full agreement (`Consistent`) is proved to be kept by registration, eviction, a whole snapshot and the whole sweep. It is not claimed for a single `Forget`/`ForgetAt` step on its own. Quit breaks it (see `QuitLeavesIndexStale`).
- TimeTravel.TimeTravelPdb.EvictOldest: assumes every SIGTERM is delivered. The `os.kill` at line 84 has no `try`, so for a pid that was already reaped it raises `ProcessLookupError` after the victim has been deleted and forgotten. The remaining rounds and the host's `interaction` are then skipped. The model always completes the loop and returns every evicted pid.
- TimeTravel.TimeTravelPdb.TomQuit: assumes every SIGTERM is delivered. An `os.kill` at line 100 that raises `ProcessLookupError` for an already reaped pid leaves the list and the descriptions uncleared, and `super().do_quit` never runs. The model always clears them and returns every listed pid.
- TimeTravel.TimeTravelPdb.UList: its postcondition states the lines only. That the head of each line selects its pid is proved separately, on the registry (`ListedLineSelects`), under the labelling invariant `Labelled`. `Labelled` is not part of the class invariant, to keep each method's proof small.
