/** The snapshot registry of one debugger process, as a value: the ordered list of
    live snapshot pids, the pid -> serial, serial -> pid and serial -> description
    indexes, and the serial counter. The functions here are what the methods of
    `TimeTravel.TimeTravelPdb` are proved against. */
module Bookkeeping {
  import opened Text

  type Pid = int
  type Serial = int

  datatype Registry = Registry(
    pids: seq<Pid>,                     // live snapshots, oldest first
    idOf: map<Pid, Serial>,
    pidOf: map<Serial, Pid>,
    descriptions: map<Serial, string>,
    serial: int)                        // how many snapshots were taken so far

  const Empty: Registry := Registry([], map[], map[], map[], 0)

  // ---------------------------------------------------------------------------
  // Invariants

  ghost predicate NoDuplicates(s: seq<Pid>) {
    forall i, j :: 0 <= i < j < |s| ==> s[i] != s[j]
  }

  /** `p` has an entry in all three indexes, and they agree with each other. */
  ghost predicate Indexed(b: Registry, p: Pid) {
    && p in b.idOf
    && b.idOf[p] in b.pidOf && b.pidOf[b.idOf[p]] == p
    && b.idOf[p] in b.descriptions
  }

  /** What every operation needs and keeps, including the quit cleanup: every listed
      pid is fully indexed, the list is in increasing serial order, and no index holds
      a serial beyond the counter. */
  ghost predicate Tracked(b: Registry) {
    && 0 <= b.serial
    && (forall i :: 0 <= i < |b.pids| ==> Indexed(b, b.pids[i]))
    && (forall i, j :: 0 <= i < j < |b.pids| ==> b.idOf[b.pids[i]] < b.idOf[b.pids[j]])
    && (forall s :: s in b.pidOf ==> 1 <= s <= b.serial)
    && (forall s :: s in b.descriptions ==> 1 <= s <= b.serial)
  }

  /** The full agreement of the list and the three indexes: besides `Tracked`, every
      index entry belongs to a listed pid. */
  ghost predicate Consistent(b: Registry) {
    && Tracked(b)
    && (forall p :: p in b.idOf ==> p in b.pids)
    && (forall s :: s in b.pidOf ==> b.pidOf[s] in b.idOf && b.idOf[b.pidOf[s]] == s)
    && b.descriptions.Keys == b.pidOf.Keys
  }

  lemma EmptyIsConsistent()
    ensures Consistent(Empty)
  {
  }

  lemma TrackedHasNoDuplicates(b: Registry)
    requires Tracked(b)
    ensures NoDuplicates(b.pids)
  {
  }

  /** The oldest listed snapshot has the smallest serial of all live snapshots,
      so evicting the front of the list evicts the oldest universe. */
  lemma OldestHasSmallestSerial(b: Registry)
    requires Consistent(b) && |b.pids| > 0
    ensures forall p :: p in b.idOf ==> b.idOf[b.pids[0]] <= b.idOf[p]
  {
    forall p | p in b.idOf ensures b.idOf[b.pids[0]] <= b.idOf[p] {
      var k :| 0 <= k < |b.pids| && b.pids[k] == p;
    }
  }

  // ---------------------------------------------------------------------------
  // Forgetting snapshots

  /** Whether `_forget_pid(pid)` runs without a `KeyError`. */
  ghost predicate CanForget(b: Registry, pid: Pid) {
    && pid in b.idOf
    && b.idOf[pid] in b.pidOf
    && b.idOf[pid] in b.descriptions
  }

  /** `_forget_pid`: drop `pid` and its serial from the three indexes together. */
  function Forget(b: Registry, pid: Pid): (r: Registry)
    requires CanForget(b, pid)
    ensures r.pids == b.pids && r.serial == b.serial
    ensures r.idOf.Keys == b.idOf.Keys - {pid}
    ensures r.pidOf.Keys == b.pidOf.Keys - {b.idOf[pid]}
    ensures r.descriptions.Keys == b.descriptions.Keys - {b.idOf[pid]}
    ensures forall p :: p in r.idOf ==> r.idOf[p] == b.idOf[p]
    ensures forall s :: s in r.pidOf ==> r.pidOf[s] == b.pidOf[s]
    ensures forall s :: s in r.descriptions ==> r.descriptions[s] == b.descriptions[s]
  {
    var s := b.idOf[pid];
    b.(idOf := b.idOf - {pid}, pidOf := b.pidOf - {s}, descriptions := b.descriptions - {s})
  }

  /** `del pids[i]` followed by `_forget_pid(pids[i])`. */
  function ForgetAt(b: Registry, i: nat): (r: Registry)
    requires Tracked(b) && i < |b.pids|
    ensures r.pids == b.pids[..i] + b.pids[i + 1..]
  {
    Forget(b.(pids := b.pids[..i] + b.pids[i + 1..]), b.pids[i])
  }

  function Elements(s: seq<Pid>): set<Pid> {
    set p | p in s
  }

  function SerialsOf(b: Registry, gone: set<Pid>): set<Serial>
    requires gone <= b.idOf.Keys
  {
    set p | p in gone :: b.idOf[p]
  }

  /** A listed pid that none of `gone` is listed at the same place as: it is not in
      `gone`, and its serial is none of theirs (serials increase along the list). */
  lemma ListedApart(b: Registry, k: nat, gone: set<Pid>)
    requires Tracked(b) && k < |b.pids|
    requires forall q :: q in gone ==> exists j :: 0 <= j < |b.pids| && j != k && b.pids[j] == q
    ensures gone <= b.idOf.Keys
    ensures b.pids[k] !in gone && b.idOf[b.pids[k]] !in SerialsOf(b, gone)
  {
    forall q | q in gone ensures q in b.idOf && b.idOf[q] != b.idOf[b.pids[k]] {
      var j :| 0 <= j < |b.pids| && j != k && b.pids[j] == q;
    }
  }

  // ---------------------------------------------------------------------------
  // The parent branch of a snapshot

  /** Register a freshly forked snapshot: append its pid, advance the counter and
      index the pid under the new serial. */
  function Register(b: Registry, pid: Pid, description: string): (r: Registry)
    ensures Tracked(b) && pid !in b.idOf ==> Tracked(r)
  {
    var num := b.serial + 1;
    Registry(b.pids + [pid], b.idOf[pid := num], b.pidOf[num := pid], b.descriptions[num := description], num)
  }

  lemma RegisterKeepsConsistent(b: Registry, pid: Pid, description: string)
    requires Consistent(b) && pid !in b.idOf
    ensures Consistent(Register(b, pid, description))
  {
    var r := Register(b, pid, description);
    forall s | s in r.pidOf ensures r.pidOf[s] in r.idOf && r.idOf[r.pidOf[s]] == s {
      if s != r.serial {
        assert b.pidOf[s] in b.idOf;
      }
    }
  }

  /** The registry once the `k` oldest listed snapshots are deleted and forgotten. */
  function DropOldest(b: Registry, k: nat): Registry
    requires Tracked(b) && k <= |b.pids|
  {
    var gone := Elements(b.pids[..k]);
    var serials := SerialsOf(b, gone);
    Registry(b.pids[k..], b.idOf - gone, b.pidOf - serials, b.descriptions - serials, b.serial)
  }

  lemma DropOldestKeepsTracked(b: Registry, k: nat)
    requires Tracked(b) && k <= |b.pids|
    ensures Tracked(DropOldest(b, k))
  {
    var r := DropOldest(b, k);
    var gone := Elements(b.pids[..k]);
    forall i | 0 <= i < |r.pids| ensures Indexed(r, r.pids[i]) {
      forall q | q in gone ensures exists j :: 0 <= j < |b.pids| && j != k + i && b.pids[j] == q {
        var j :| 0 <= j < |b.pids[..k]| && b.pids[..k][j] == q;
        assert b.pids[j] == q;
      }
      ListedApart(b, k + i, gone);
    }
  }

  lemma DropOldestKeepsConsistent(b: Registry, k: nat)
    requires Consistent(b) && k <= |b.pids|
    ensures Consistent(DropOldest(b, k))
  {
    DropOldestKeepsTracked(b, k);
    var r := DropOldest(b, k);
    forall q | q in r.idOf ensures q in r.pids {
      DroppedIndexListed(b, k, q);
    }
    forall s | s in r.pidOf ensures r.pidOf[s] in r.idOf && r.idOf[r.pidOf[s]] == s {
      assert b.pidOf[s] in b.idOf && b.idOf[b.pidOf[s]] == s;
    }
  }

  lemma DroppedIndexListed(b: Registry, k: nat, q: Pid)
    requires Consistent(b) && k <= |b.pids| && q in DropOldest(b, k).idOf
    ensures q in DropOldest(b, k).pids
  {
    var gone := Elements(b.pids[..k]);
    var j :| 0 <= j < |b.pids| && b.pids[j] == q;
    forall i | 0 <= i < k ensures b.pids[i] in gone {
      assert b.pids[..k][i] == b.pids[i];
    }
    assert DropOldest(b, k).pids[j - k] == q;
  }

  /** One round of the eviction loop: forgetting the front of the list after the `k`
      oldest are gone leaves the registry with the `k + 1` oldest gone. */
  lemma DropOldestStep(b: Registry, k: nat)
    requires Tracked(b) && k < |b.pids|
    ensures Tracked(DropOldest(b, k))
    ensures ForgetAt(DropOldest(b, k), 0) == DropOldest(b, k + 1)
  {
    DropOldestKeepsTracked(b, k);
    var p := b.pids[k];
    var gone := Elements(b.pids[..k]);
    forall q | q in gone ensures exists j :: 0 <= j < |b.pids| && j != k && b.pids[j] == q {
      var j :| 0 <= j < |b.pids[..k]| && b.pids[..k][j] == q;
      assert b.pids[j] == q;
    }
    ListedApart(b, k, gone);
    assert Elements(b.pids[..k + 1]) == gone + {p} by {
      assert b.pids[..k + 1] == b.pids[..k] + [p];
    }
    assert SerialsOf(b, gone + {p}) == SerialsOf(b, gone) + {b.idOf[p]};
    var r := ForgetAt(DropOldest(b, k), 0);
    var want := DropOldest(b, k + 1);
    assert r.pids == want.pids;
    assert r.idOf == want.idOf;
    assert r.pidOf == want.pidOf;
    assert r.descriptions == want.descriptions;
  }

  /** FIFO eviction: while more than `umax` snapshots are listed, forget the oldest. */
  function Evict(b: Registry, umax: nat): (r: Registry)
    requires Tracked(b)
    ensures Tracked(r)
  {
    if |b.pids| <= umax then b
    else
      DropOldestKeepsTracked(b, |b.pids| - umax);
      DropOldest(b, |b.pids| - umax)
  }

  /** The eviction loop stops once at most `umax` are listed; the rounds it ran
      dropped exactly the oldest ones beyond that. */
  lemma EvictStopsAtCapacity(b: Registry, umax: nat, k: nat)
    requires Tracked(b) && k <= |b.pids| && |b.pids| - k <= umax
    requires k == 0 || |b.pids| - k >= umax
    ensures Evict(b, umax) == DropOldest(b, k)
  {
    if k == 0 {
      DropNothing(b);
    }
  }

  lemma TakeDrop(s: seq<Pid>, k: nat)
    requires k <= |s|
    ensures s[..k] + s[k..] == s
  {
  }

  /** Eviction keeps the `umax` youngest snapshots in their order, forgets every
      evicted pid and its serial, and leaves the survivors' index entries alone. */
  lemma EvictDropsOldest(b: Registry, umax: nat)
    requires Tracked(b)
    ensures var r := Evict(b, umax);
            && |r.pids| == (if |b.pids| <= umax then |b.pids| else umax)
            && r.pids == b.pids[|b.pids| - |r.pids|..]
            && (forall k :: 0 <= k < |b.pids| - |r.pids| ==>
                  b.pids[k] !in r.idOf && b.idOf[b.pids[k]] !in r.pidOf
                  && b.idOf[b.pids[k]] !in r.descriptions)
            && (forall p :: p in r.pids ==> p in b.idOf && p in r.idOf && r.idOf[p] == b.idOf[p])
  {
    var r := Evict(b, umax);
    var n := |b.pids| - |r.pids|;
    var gone := Elements(b.pids[..n]);
    forall k | 0 <= k < n
      ensures b.pids[k] in gone && b.idOf[b.pids[k]] in SerialsOf(b, gone)
    {
      assert b.pids[..n][k] == b.pids[k];
    }
  }

  lemma EvictKeepsConsistent(b: Registry, umax: nat)
    requires Consistent(b)
    ensures Consistent(Evict(b, umax))
  {
    if |b.pids| > umax {
      DropOldestKeepsConsistent(b, |b.pids| - umax);
    }
  }

  /** What one stop event does to the registry. The forked child only advances its
      own (stale) counter; the parent registers the new pid and evicts down to `umax`. */
  function AfterSnapshot(b: Registry, forked: Pid, description: string, umax: nat): (r: Registry)
    requires Tracked(b) && (forked != 0 ==> forked !in b.idOf)
    ensures Tracked(r)
  {
    if forked == 0 then b.(serial := b.serial + 1) else Evict(Register(b, forked, description), umax)
  }

  lemma SnapshotKeepsConsistent(b: Registry, forked: Pid, description: string, umax: nat)
    requires Consistent(b) && (forked != 0 ==> forked !in b.idOf)
    ensures Consistent(AfterSnapshot(b, forked, description, umax))
  {
    if forked != 0 {
      RegisterKeepsConsistent(b, forked, description);
      EvictKeepsConsistent(Register(b, forked, description), umax);
    }
  }

  /** Serials are never reused: both branches advance the counter by exactly one, and
      every serial in the indexes stays between 1 and the counter. */
  lemma SnapshotAdvancesSerial(b: Registry, forked: Pid, description: string, umax: nat)
    requires Tracked(b) && (forked != 0 ==> forked !in b.idOf)
    ensures var r := AfterSnapshot(b, forked, description, umax);
            && r.serial == b.serial + 1
            && (forall s :: s in r.pidOf ==> 1 <= s <= r.serial)
  {
  }

  /** With room for at least one snapshot, the parent branch leaves the new pid at the
      end of the list, after the youngest of the snapshots that were there before. */
  lemma SnapshotAppendsNewest(b: Registry, pid: Pid, description: string, umax: nat)
    requires Tracked(b) && pid !in b.idOf && umax >= 1
    ensures var r := Evict(Register(b, pid, description), umax);
            && 1 <= |r.pids| <= |b.pids| + 1
            && r.pids == b.pids[|b.pids| + 1 - |r.pids|..] + [pid]
  {
    var reg := Register(b, pid, description);
    EvictDropsOldest(reg, umax);
    KeptSuffix(b.pids, pid, Evict(reg, umax).pids);
  }

  lemma KeptSuffix(s: seq<Pid>, x: Pid, t: seq<Pid>)
    requires 1 <= |t| <= |s| + 1 && t == (s + [x])[|s| + 1 - |t|..]
    ensures t == s[|s| + 1 - |t|..] + [x]
  {
  }

  /** ... and indexed under the new serial, with its description. */
  lemma SnapshotIndexesNewest(b: Registry, pid: Pid, description: string, umax: nat)
    requires Tracked(b) && pid !in b.idOf && umax >= 1
    ensures var r := Evict(Register(b, pid, description), umax);
            && pid in r.idOf && r.idOf[pid] == b.serial + 1
            && b.serial + 1 in r.pidOf && r.pidOf[b.serial + 1] == pid
            && b.serial + 1 in r.descriptions && r.descriptions[b.serial + 1] == description
  {
    var reg := Register(b, pid, description);
    var r := Evict(reg, umax);
    EvictDropsOldest(reg, umax);
    assert r.pids[|r.pids| - 1] == pid;
    assert Indexed(r, r.pids[|r.pids| - 1]);
  }

  /** Capacity bound after a completed parent-branch stop event: at most `umax`
      snapshots remain, and exactly the oldest ones beyond that were removed. */
  lemma SnapshotKeepsCapacity(b: Registry, pid: Pid, description: string, umax: nat)
    requires Tracked(b) && pid !in b.idOf
    ensures var r := Evict(Register(b, pid, description), umax);
            var s := b.pids + [pid];
            var excess := if |s| > umax then |s| - umax else 0;
            && |r.pids| <= umax
            && r.pids == s[excess..]
            && (forall k :: 0 <= k < excess ==> s[k] !in r.idOf)
  {
    EvictDropsOldest(Register(b, pid, description), umax);
  }

  /** Before the first round nothing is evicted. */
  lemma DropNothing(b: Registry)
    requires Tracked(b)
    ensures DropOldest(b, 0) == b
  {
    assert Elements(b.pids[..0]) == {};
    assert SerialsOf(b, {}) == {};
  }

  // ---------------------------------------------------------------------------
  // The reconciliation sweep after a jump

  /** The pids of `s` the liveness probe reports alive, in their original order. */
  function Keep(s: seq<Pid>, alive: Pid -> bool): (r: seq<Pid>)
    ensures |r| <= |s|
    ensures forall p :: p in r <==> p in s && alive(p)
  {
    if s == [] then []
    else (if alive(s[0]) then [s[0]] else []) + Keep(s[1..], alive)
  }

  function Dead(s: seq<Pid>, alive: Pid -> bool): set<Pid> {
    set p | p in s && !alive(p)
  }

  /** Filtering keeps a list in increasing serial order. */
  lemma {:induction false} KeepAscending(b: Registry, s: seq<Pid>, alive: Pid -> bool)
    requires forall i :: 0 <= i < |s| ==> s[i] in b.idOf
    requires forall i, j :: 0 <= i < j < |s| ==> b.idOf[s[i]] < b.idOf[s[j]]
    ensures forall i :: 0 <= i < |Keep(s, alive)| ==> Keep(s, alive)[i] in b.idOf
    ensures forall i, j :: 0 <= i < j < |Keep(s, alive)| ==>
              b.idOf[Keep(s, alive)[i]] < b.idOf[Keep(s, alive)[j]]
  {
    if s != [] {
      var rest := Keep(s[1..], alive);
      KeepAscending(b, s[1..], alive);
      forall k | 0 <= k < |rest| ensures b.idOf[s[0]] < b.idOf[rest[k]] {
        assert rest[k] in rest;
        var j :| 0 <= j < |s[1..]| && s[1..][j] == rest[k];
        assert s[j + 1] == rest[k];
      }
    }
  }

  /** The registry once the sweep has checked every index from `i` up: the dead among
      `pids[i..]` are deleted and forgotten, `pids[..i]` is not looked at yet. */
  function SweptFrom(b: Registry, i: nat, alive: Pid -> bool): Registry
    requires Tracked(b) && i <= |b.pids|
  {
    var dead := Dead(b.pids[i..], alive);
    var serials := SerialsOf(b, dead);
    Registry(b.pids[..i] + Keep(b.pids[i..], alive), b.idOf - dead, b.pidOf - serials,
             b.descriptions - serials, b.serial)
  }

  /** Every pid in `pids[i..]` is listed at an index from `i` up. */
  lemma ListedFrom(b: Registry, i: nat, q: Pid)
    requires i <= |b.pids| && q in b.pids[i..]
    ensures exists j :: i <= j < |b.pids| && b.pids[j] == q
  {
    var j :| 0 <= j < |b.pids[i..]| && b.pids[i..][j] == q;
    assert b.pids[i + j] == q;
  }

  /** The entries the sweep keeps are indexed as before. */
  lemma SweptFromKeepsEntries(b: Registry, i: nat, alive: Pid -> bool)
    requires Tracked(b) && i <= |b.pids|
    ensures var r := SweptFrom(b, i, alive);
            forall k :: 0 <= k < |r.pids| ==>
              Indexed(r, r.pids[k]) && r.pids[k] in b.idOf && r.idOf[r.pids[k]] == b.idOf[r.pids[k]]
  {
    var r := SweptFrom(b, i, alive);
    forall k | 0 <= k < |r.pids|
      ensures Indexed(r, r.pids[k]) && r.pids[k] in b.idOf && r.idOf[r.pids[k]] == b.idOf[r.pids[k]]
    {
      SweptFromKeepsEntry(b, i, alive, k);
    }
  }

  lemma SweptFromKeepsEntry(b: Registry, i: nat, alive: Pid -> bool, k: nat)
    requires Tracked(b) && i <= |b.pids| && k < |SweptFrom(b, i, alive).pids|
    ensures var r := SweptFrom(b, i, alive);
            Indexed(r, r.pids[k]) && r.pids[k] in b.idOf && r.idOf[r.pids[k]] == b.idOf[r.pids[k]]
  {
    var r := SweptFrom(b, i, alive);
    var j := k;
    if k >= i {
      var kept := Keep(b.pids[i..], alive);
      assert r.pids[k] == kept[k - i];
      ListedFrom(b, i, kept[k - i]);
      j :| i <= j < |b.pids| && b.pids[j] == kept[k - i];
    }
    KeptIndexed(b, i, alive, j);
  }

  /** A pid the sweep has not found dead keeps its entries in all three indexes. */
  lemma KeptIndexed(b: Registry, i: nat, alive: Pid -> bool, j: nat)
    requires Tracked(b) && i <= |b.pids| && j < |b.pids| && (j < i || alive(b.pids[j]))
    ensures var r := SweptFrom(b, i, alive);
            Indexed(r, b.pids[j]) && b.pids[j] in b.idOf && r.idOf[b.pids[j]] == b.idOf[b.pids[j]]
  {
    var dead := Dead(b.pids[i..], alive);
    forall q | q in dead ensures exists j' :: 0 <= j' < |b.pids| && j' != j && b.pids[j'] == q {
      ListedFrom(b, i, q);
    }
    ListedApart(b, j, dead);
  }

  lemma SweptFromKeepsTracked(b: Registry, i: nat, alive: Pid -> bool)
    requires Tracked(b) && i <= |b.pids|
    ensures Tracked(SweptFrom(b, i, alive))
  {
    var r := SweptFrom(b, i, alive);
    var kept := Keep(b.pids[i..], alive);
    SweptFromKeepsEntries(b, i, alive);
    KeepAscending(b, b.pids[i..], alive);
    forall k1, k2 | 0 <= k1 < i <= k2 < |r.pids|
      ensures r.idOf[r.pids[k1]] < r.idOf[r.pids[k2]]
    {
      assert r.pids[k1] == b.pids[k1] && r.pids[k2] == kept[k2 - i];
      KeptAfterSwept(b, i, alive, k1, k2 - i);
    }
  }

  /** An entry the sweep kept from index `i` up still comes after every entry below it. */
  lemma KeptAfterSwept(b: Registry, i: nat, alive: Pid -> bool, k1: nat, k: nat)
    requires Tracked(b) && k1 < i <= |b.pids| && k < |Keep(b.pids[i..], alive)|
    ensures var q := Keep(b.pids[i..], alive)[k];
            b.pids[k1] in b.idOf && q in b.idOf && b.idOf[b.pids[k1]] < b.idOf[q]
  {
    var q := Keep(b.pids[i..], alive)[k];
    ListedFrom(b, i, q);
    var j :| i <= j < |b.pids| && b.pids[j] == q;
  }

  lemma SweptFromKeepsConsistent(b: Registry, i: nat, alive: Pid -> bool)
    requires Consistent(b) && i <= |b.pids|
    ensures Consistent(SweptFrom(b, i, alive))
  {
    SweptFromKeepsTracked(b, i, alive);
    var r := SweptFrom(b, i, alive);
    forall q | q in r.idOf ensures q in r.pids {
      SweptIndexListed(b, i, alive, q);
    }
    forall s | s in r.pidOf ensures r.pidOf[s] in r.idOf && r.idOf[r.pidOf[s]] == s {
      assert b.pidOf[s] in b.idOf && b.idOf[b.pidOf[s]] == s;
    }
  }

  lemma SweptIndexListed(b: Registry, i: nat, alive: Pid -> bool, q: Pid)
    requires Consistent(b) && i <= |b.pids| && q in SweptFrom(b, i, alive).idOf
    ensures q in SweptFrom(b, i, alive).pids
  {
    var j :| 0 <= j < |b.pids| && b.pids[j] == q;
    if j < i {
      assert SweptFrom(b, i, alive).pids[j] == q;
    } else {
      assert b.pids[i..][j - i] == q;
      assert q in Keep(b.pids[i..], alive);
    }
  }

  /** Before the sweep has checked anything, the registry is untouched. */
  lemma SweptNothing(b: Registry, alive: Pid -> bool)
    requires Tracked(b)
    ensures SweptFrom(b, |b.pids|, alive) == b
  {
    assert b.pids[|b.pids|..] == [];
    assert Dead([], alive) == {};
    assert SerialsOf(b, {}) == {};
  }

  /** One round of the sweep, at index `i - 1`: a live pid is left alone, a dead one
      is deleted at that index and forgotten. */
  lemma SweptFromStep(b: Registry, i: nat, alive: Pid -> bool)
    requires Tracked(b) && 0 < i <= |b.pids|
    ensures Tracked(SweptFrom(b, i, alive))
    ensures SweptFrom(b, i, alive).pids[i - 1] == b.pids[i - 1]
    ensures SweptFrom(b, i - 1, alive)
            == if alive(b.pids[i - 1]) then SweptFrom(b, i, alive) else ForgetAt(SweptFrom(b, i, alive), i - 1)
  {
    SweptFromKeepsTracked(b, i, alive);
    if alive(b.pids[i - 1]) {
      SweptFromSkip(b, i, alive);
    } else {
      SweptFromDrop(b, i, alive);
    }
  }

  lemma SweptFromSkip(b: Registry, i: nat, alive: Pid -> bool)
    requires Tracked(b) && 0 < i <= |b.pids| && alive(b.pids[i - 1])
    ensures SweptFrom(b, i - 1, alive) == SweptFrom(b, i, alive)
  {
    var x := b.pids[i - 1];
    assert b.pids[i - 1..][1..] == b.pids[i..];
    assert b.pids[..i] == b.pids[..i - 1] + [x];
    assert Dead(b.pids[i - 1..], alive) == Dead(b.pids[i..], alive);
    assert SweptFrom(b, i - 1, alive).pids == SweptFrom(b, i, alive).pids;
  }

  lemma SweptFromDrop(b: Registry, i: nat, alive: Pid -> bool)
    requires Tracked(b) && 0 < i <= |b.pids| && !alive(b.pids[i - 1])
    requires Tracked(SweptFrom(b, i, alive))
    ensures SweptFrom(b, i - 1, alive) == ForgetAt(SweptFrom(b, i, alive), i - 1)
  {
    var r := ForgetAt(SweptFrom(b, i, alive), i - 1);
    var want := SweptFrom(b, i - 1, alive);
    SweptFromDropList(b, i, alive);
    SweptFromDropIndexes(b, i, alive);
    assert r.serial == want.serial;
  }

  lemma SweptFromDropList(b: Registry, i: nat, alive: Pid -> bool)
    requires Tracked(b) && 0 < i <= |b.pids| && !alive(b.pids[i - 1])
    requires Tracked(SweptFrom(b, i, alive))
    ensures SweptFrom(b, i - 1, alive).pids == ForgetAt(SweptFrom(b, i, alive), i - 1).pids
  {
    var x := b.pids[i - 1];
    var kept := Keep(b.pids[i..], alive);
    assert b.pids[i - 1..][1..] == b.pids[i..];
    assert Keep(b.pids[i - 1..], alive) == kept;
    assert b.pids[..i] == b.pids[..i - 1] + [x];
    CutOut(b.pids[..i - 1], x, kept);
  }

  /** Deleting the element just after a prefix `p` joins `p` to what follows. */
  lemma CutOut(p: seq<Pid>, x: Pid, t: seq<Pid>)
    ensures var u := p + [x] + t; u[..|p|] + u[|p| + 1..] == p + t
  {
    var u := p + [x] + t;
    assert u[..|p|] == p;
    assert u[|p| + 1..] == t;
  }

  lemma SweptFromDropIndexes(b: Registry, i: nat, alive: Pid -> bool)
    requires Tracked(b) && 0 < i <= |b.pids| && !alive(b.pids[i - 1])
    requires Tracked(SweptFrom(b, i, alive))
    ensures var r := ForgetAt(SweptFrom(b, i, alive), i - 1);
            var want := SweptFrom(b, i - 1, alive);
            r.idOf == want.idOf && r.pidOf == want.pidOf && r.descriptions == want.descriptions
  {
    var x := b.pids[i - 1];
    var dead := Dead(b.pids[i..], alive);
    DeadGrows(b, i, alive);
    ForgetOneMore(b, dead, x, SweptFrom(b, i, alive));
  }

  /** Stepping the sweep back over a dead pid adds exactly that pid to the dead set. */
  lemma DeadGrows(b: Registry, i: nat, alive: Pid -> bool)
    requires Tracked(b) && 0 < i <= |b.pids| && !alive(b.pids[i - 1])
    ensures var dead := Dead(b.pids[i..], alive);
            && dead <= b.idOf.Keys && b.pids[i - 1] in b.idOf
            && b.pids[i - 1] !in dead && b.idOf[b.pids[i - 1]] !in SerialsOf(b, dead)
            && Dead(b.pids[i - 1..], alive) == dead + {b.pids[i - 1]}
  {
    var dead := Dead(b.pids[i..], alive);
    assert b.pids[i - 1..] == [b.pids[i - 1]] + b.pids[i..];
    forall q | q in dead ensures exists j :: 0 <= j < |b.pids| && j != i - 1 && b.pids[j] == q {
      ListedFrom(b, i, q);
    }
    ListedApart(b, i - 1, dead);
  }

  /** Forgetting one more pid from a registry that has already dropped `dead`. */
  lemma ForgetOneMore(b: Registry, dead: set<Pid>, x: Pid, m: Registry)
    requires dead <= b.idOf.Keys && x in b.idOf && x !in dead && b.idOf[x] !in SerialsOf(b, dead)
    requires m.idOf == b.idOf - dead
    requires m.pidOf == b.pidOf - SerialsOf(b, dead)
    requires m.descriptions == b.descriptions - SerialsOf(b, dead)
    ensures m.idOf - {x} == b.idOf - (dead + {x})
    ensures m.pidOf - {m.idOf[x]} == b.pidOf - SerialsOf(b, dead + {x})
    ensures m.descriptions - {m.idOf[x]} == b.descriptions - SerialsOf(b, dead + {x})
  {
    assert SerialsOf(b, dead + {x}) == SerialsOf(b, dead) + {b.idOf[x]};
  }

  /** The whole sweep: every listed pid checked, newest to oldest. */
  function Sweep(b: Registry, alive: Pid -> bool): (r: Registry)
    requires Tracked(b)
    ensures Tracked(r)
  {
    SweptFromKeepsTracked(b, 0, alive);
    SweptFrom(b, 0, alive)
  }

  /** After the sweep exactly the live pids remain listed, in their order; every dead
      pid is gone from all three indexes, and every survivor keeps its serial. */
  lemma SweepForgetsExactlyTheDead(b: Registry, alive: Pid -> bool)
    requires Tracked(b)
    ensures var r := Sweep(b, alive);
            && r.pids == Keep(b.pids, alive)
            && (forall p :: p in b.pids && !alive(p) ==>
                  p in b.idOf && p !in r.idOf && b.idOf[p] !in r.pidOf && b.idOf[p] !in r.descriptions)
            && (forall p :: p in r.pids ==> alive(p) && p in b.idOf && p in r.idOf && r.idOf[p] == b.idOf[p])
  {
    var r := Sweep(b, alive);
    assert b.pids[0..] == b.pids;
    var dead := Dead(b.pids, alive);
    forall p | p in b.pids && !alive(p)
      ensures p in b.idOf && b.idOf[p] in SerialsOf(b, dead)
    {
      assert p in dead;
    }
    SweptFromKeepsEntries(b, 0, alive);
  }

  lemma SweepKeepsConsistent(b: Registry, alive: Pid -> bool)
    requires Consistent(b)
    ensures Consistent(Sweep(b, alive))
  {
    SweptFromKeepsConsistent(b, 0, alive);
  }

  // ---------------------------------------------------------------------------
  // Quit

  /** `_tom_quit` in the root: the list and the descriptions become empty, while the
      pid -> serial and serial -> pid indexes keep their entries (the source assigns an
      empty dict to the misspelt attribute `_tomography_ids` instead). */
  function Quit(b: Registry): Registry {
    b.(pids := [], descriptions := map[])
  }

  /** Quit keeps `Tracked`, so later commands still run, but it breaks `Consistent`
      as soon as any snapshot was known: the id indexes are left stale. */
  lemma QuitLeavesIndexStale(b: Registry)
    requires Consistent(b)
    ensures Tracked(Quit(b))
    ensures Consistent(Quit(b)) <==> b.pids == []
  {
    if b.pids != [] {
      assert b.pids[0] in Quit(b).idOf;
    } else {
      assert forall p :: p !in b.idOf;
      assert forall s :: s !in b.pidOf;
    }
  }

  // ---------------------------------------------------------------------------
  // Listing lines

  /** Every description starts with the index of its universe (its serial minus one)
      followed by a colon, as the parent branch writes it. */
  ghost predicate Labelled(b: Registry) {
    forall s :: s in b.descriptions ==> StartsWithIndex(b.descriptions[s], s)
  }

  ghost predicate StartsWithIndex(line: string, s: Serial) {
    BeforeColon(line) == IntToString(s - 1)
  }

  lemma FewerLabelled(b: Registry, r: Registry)
    requires Labelled(b) && r.descriptions.Keys <= b.descriptions.Keys
    requires forall s :: s in r.descriptions ==> r.descriptions[s] == b.descriptions[s]
    ensures Labelled(r)
  {
  }

  /** The parent branch keeps every description labelled when the new one starts
      with the new universe's index. */
  lemma SnapshotKeepsLabelled(b: Registry, pid: Pid, description: string, umax: nat)
    requires Tracked(b) && Labelled(b) && pid !in b.idOf
    requires StartsWithIndex(description, b.serial + 1)
    ensures Labelled(Evict(Register(b, pid, description), umax))
  {
    var reg := Register(b, pid, description);
    assert Labelled(reg);
    FewerLabelled(reg, Evict(reg, umax));
  }

  lemma SweepKeepsLabelled(b: Registry, alive: Pid -> bool)
    requires Tracked(b) && Labelled(b)
    ensures Labelled(Sweep(b, alive))
  {
    FewerLabelled(b, Sweep(b, alive));
  }

  // ---------------------------------------------------------------------------
  // Jump target

  /** `pid_of[int(arg) + 1]`, or `None` where the source reports "No such universe". */
  function Target(b: Registry, arg: string): Option<Pid> {
    match ParseInt(arg)
    case None => None
    case Some(i) => if i + 1 in b.pidOf then Some(b.pidOf[i + 1]) else None
  }

  /** The index shown for a listed universe (its serial minus one) selects it. */
  lemma ShownIndexSelects(b: Registry, p: Pid)
    requires Tracked(b) && p in b.pids
    ensures p in b.idOf && Target(b, IntToString(b.idOf[p] - 1)) == Some(p)
  {
    var k :| 0 <= k < |b.pids| && b.pids[k] == p;
    ParseIntOfIntToString(b.idOf[p] - 1);
  }

  /** In a consistent registry, whatever a jump selects is a listed universe, and the
      argument names it by its serial minus one. */
  lemma TargetIsListed(b: Registry, arg: string)
    requires Consistent(b) && Target(b, arg).Some?
    ensures var p := Target(b, arg).value;
            p in b.pids && p in b.idOf && ParseInt(arg) == Some(b.idOf[p] - 1)
  {
    SelectedIsListed(b, ParseInt(arg).value + 1);
  }

  lemma SelectedIsListed(b: Registry, s: Serial)
    requires Consistent(b) && s in b.pidOf
    ensures b.pidOf[s] in b.pids && b.pidOf[s] in b.idOf && b.idOf[b.pidOf[s]] == s
  {
    var p := b.pidOf[s];
    assert p in b.idOf;
  }

  /** The index in the prompt after a parent-branch snapshot (the new serial minus one)
      selects the new snapshot once eviction is done, as long as the capacity keeps at
      least one snapshot. */
  lemma PromptIndexSelectsNewSnapshot(b: Registry, pid: Pid, description: string, umax: nat)
    requires Tracked(b) && pid !in b.idOf && umax >= 1
    ensures Target(Evict(Register(b, pid, description), umax), IntToString(b.serial)) == Some(pid)
  {
    SnapshotIndexesNewest(b, pid, description, umax);
    ParseIntOfIntToString(b.serial);
  }

  /** The index a listing line starts with selects that line's universe: typing the
      number `ulist` shows resumes the snapshot it describes. */
  lemma ListedLineSelects(b: Registry, p: Pid)
    requires Tracked(b) && Labelled(b) && p in b.pids
    ensures p in b.idOf && b.idOf[p] in b.descriptions
    ensures Target(b, BeforeColon(b.descriptions[b.idOf[p]])) == Some(p)
  {
    ShownIndexSelects(b, p);
    var k :| 0 <= k < |b.pids| && b.pids[k] == p;
  }
}
