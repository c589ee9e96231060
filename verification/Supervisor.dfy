/** The worker processes of Nsq::subscribe: the process table, its reload on child exits, and the SIGTERM list. */
module Supervisors {
  import opened Arithmetic
  import opened Lists

  /** What a worker needs to know of its producer. */
  datatype Producer = Producer(host: string, port: string)

  /** A table entry; cleared memory has pid 0. */
  datatype Slot = Slot(pid: int, arg: Producer)

  const NOBODY := Producer("", "")
  const EMPTY_SLOT := Slot(0, NOBODY)

  /** The master's state together with the system's: children not yet waited for, and those still running. */
  datatype System = System(table: seq<Slot>, childFd: seq<int>, children: set<int>, live: set<int>)

  const NOTHING_SPAWNED := System([], [], {}, {})

  /** One turn of the spawn loop (a negative pid: fork failed), a child's exit, a reload of the wait loop. */
  datatype Event = Spawn(arg: Producer, newPid: int) | Exit(pid: int) | Reload(pid: int, newPid: int)

  function Pids(table: seq<Slot>): set<int> {
    set s | s in table && s.pid > 0 :: s.pid
  }

  predicate DistinctPids(table: seq<Slot>) {
    forall i, j :: 0 <= i < j < |table| && table[i].pid > 0 ==> table[i].pid != table[j].pid
  }

  /** A pid is not reused while a child that has it is alive or not yet waited for. */
  predicate Enabled(sys: System, e: Event) {
    match e
    case Spawn(_, newPid) => newPid < 0 || (newPid > 0 && newPid !in sys.children)
    case Exit(pid) => pid in sys.live
    case Reload(pid, newPid) => pid in sys.children && pid !in sys.live && newPid > 0 && newPid !in sys.children - {pid}
  }

  /** Every slot of that pid gets a new worker with the slot's own argument. */
  function Restarted(table: seq<Slot>, pid: int, newPid: int): seq<Slot> {
    if table == [] then []
    else [if table[0].pid == pid then Slot(newPid, table[0].arg) else table[0]] + Restarted(table[1..], pid, newPid)
  }

  function SlotIn(e: Event): seq<Slot> {
    if !e.Spawn? then [] else if e.newPid > 0 then [Slot(e.newPid, e.arg)] else [EMPTY_SLOT]
  }

  function PidIn(e: Event): seq<int> {
    if e.Spawn? && e.newPid > 0 then [e.newPid] else []
  }

  function Next(sys: System, e: Event): System {
    match e
    case Spawn(_, newPid) =>
      var started := if newPid > 0 then {newPid} else {};
      System(sys.table + SlotIn(e), sys.childFd + PidIn(e), sys.children + started, sys.live + started)
    case Exit(pid) => sys.(live := sys.live - {pid})
    case Reload(pid, newPid) =>
      System(Restarted(sys.table, pid, newPid), sys.childFd + [newPid],
             sys.children - {pid} + {newPid}, sys.live + {newPid})
  }

  predicate Inv(sys: System) {
    && DistinctPids(sys.table)
    && Pids(sys.table) == sys.children
    && sys.live <= sys.children
    && (forall pid :: pid in sys.children ==> pid in sys.childFd)
  }

  predicate Legal(sys: System, es: seq<Event>)
    decreases |es|
  {
    es == [] || (Enabled(sys, es[0]) && Legal(Next(sys, es[0]), es[1..]))
  }

  function After(sys: System, es: seq<Event>): System
    decreases |es|
  {
    if es == [] then sys else After(Next(sys, es[0]), es[1..])
  }

  function SpawnIn(e: Event): seq<Event> {
    if e.Spawn? then [e] else []
  }

  /** The turns of the spawn loop in a run. */
  function Spawns(es: seq<Event>): seq<Event> {
    Collect(SpawnIn, es)
  }

  function ReloadIn(e: Event): seq<Event> {
    if e.Reload? then [e] else []
  }

  function Reloads(es: seq<Event>): seq<Event> {
    Collect(ReloadIn, es)
  }

  /** The turns the spawn loop is to make, given what its forks return: turn k is for producer k mod count. */
  function SpawnTurns(producers: seq<Producer>, forks: seq<int>): (es: seq<Event>)
    requires producers != []
    ensures |es| == |forks| && forall e :: e in es ==> e.Spawn?
  {
    seq(|forks|, k requires 0 <= k < |forks| => Spawn(producers[k % |producers|], forks[k]))
  }

  // ----- one reload -----

  lemma {:induction false} RestartedAt(table: seq<Slot>, pid: int, newPid: int)
    ensures |Restarted(table, pid, newPid)| == |table|
    ensures forall k :: 0 <= k < |table| ==>
              Restarted(table, pid, newPid)[k] == if table[k].pid == pid then Slot(newPid, table[k].arg) else table[k]
  {
    if table != [] {
      RestartedAt(table[1..], pid, newPid);
    }
  }

  /** Exactly one worker is restarted, in the slot of the one that exited. */
  lemma RestartsOne(table: seq<Slot>, pid: int, newPid: int) returns (k: nat)
    requires DistinctPids(table) && pid in Pids(table)
    ensures k < |table| && table[k].pid == pid > 0
    ensures Restarted(table, pid, newPid) == table[k := Slot(newPid, table[k].arg)]
    ensures forall i :: 0 <= i < |table| && i != k ==> table[i].pid != pid
  {
    var s :| s in table && s.pid == pid;
    k :| 0 <= k < |table| && table[k] == s;
    RestartedAt(table, pid, newPid);
  }

  lemma RestartsNone(table: seq<Slot>, pid: int, newPid: int)
    requires pid > 0 && pid !in Pids(table)
    ensures Restarted(table, pid, newPid) == table
    ensures forall k :: 0 <= k < |table| ==> table[k].pid != pid
  {
    RestartedAt(table, pid, newPid);
    assert forall k :: 0 <= k < |table| ==> table[k] in table;
  }

  lemma PidsUpdate(table: seq<Slot>, k: nat, newPid: int)
    requires DistinctPids(table) && k < |table| && table[k].pid > 0 && newPid > 0
    ensures Pids(table[k := Slot(newPid, table[k].arg)]) == Pids(table) - {table[k].pid} + {newPid}
  {
    var pid, after := table[k].pid, table[k := Slot(newPid, table[k].arg)];
    forall p | p in Pids(table) - {pid} + {newPid} ensures p in Pids(after) {
      if p == newPid {
        assert after[k] in after;
      } else {
        var s :| s in table && s.pid == p;
        var i :| 0 <= i < |table| && table[i] == s;
        assert after[i] in after;
      }
    }
    forall p | p in Pids(after) ensures p in Pids(table) - {pid} + {newPid} {
      var s :| s in after && s.pid == p;
      var i :| 0 <= i < |after| && after[i] == s;
      if i != k {
        assert table[i] in table && table[i].pid != pid;
      }
    }
  }

  lemma PidsAppend(table: seq<Slot>, s: Slot)
    ensures Pids(table + [s]) == Pids(table) + if s.pid > 0 then {s.pid} else {}
  {
    assert s in table + [s];
    forall p | p in Pids(table) ensures p in Pids(table + [s]) {
      var first :| first in table && first.pid == p;
      assert first in table + [s];
    }
  }

  lemma SlotPids(table: seq<Slot>)
    ensures forall i :: 0 <= i < |table| && table[i].pid > 0 ==> table[i].pid in Pids(table)
  {
    assert forall i :: 0 <= i < |table| ==> table[i] in table;
  }

  lemma NextKeeps(sys: System, e: Event)
    requires Inv(sys) && Enabled(sys, e)
    ensures Inv(Next(sys, e))
    ensures Next(sys, e).childFd == sys.childFd + if e.Reload? then [e.newPid] else PidIn(e)
  {
    SlotPids(sys.table);
    match e
    case Spawn(_, _) => PidsAppend(sys.table, SlotIn(e)[0]);
    case Exit(_) =>
    case Reload(pid, newPid) =>
      var k := RestartsOne(sys.table, pid, newPid);
      PidsUpdate(sys.table, k, newPid);
      hide Restarted, Pids;
  }

  // ----- whole runs -----

  /** The slots and pids a run's spawns account for. */
  function Slots(es: seq<Event>): seq<Slot> {
    Collect(SlotIn, es)
  }

  lemma {:induction false} RunKeeps(sys: System, es: seq<Event>)
    requires Inv(sys) && Legal(sys, es)
    ensures Inv(After(sys, es))
    decreases |es|
  {
    hide Inv, Enabled, Next;
    if es != [] {
      NextKeeps(sys, es[0]);
      RunKeeps(Next(sys, es[0]), es[1..]);
    }
  }

  /** Whose worker a slot holds, and whether it holds one, is settled by the spawn loop. */
  lemma {:induction false} RunArgs(sys: System, es: seq<Event>)
    requires Inv(sys) && Legal(sys, es)
    ensures var before, now := sys.table + Slots(es), After(sys, es).table;
            |now| == |before| && forall k :: 0 <= k < |now| ==>
              now[k].arg == before[k].arg && (now[k].pid > 0 <==> before[k].pid > 0)
    decreases |es|
  {
    hide Inv, Enabled, SlotIn;
    if es != [] {
      var e, next := es[0], Next(sys, es[0]);
      NextKeeps(sys, e);
      RunArgs(next, es[1..]);
      OneTurn(sys, e);
      assert sys.table + Slots(es) == sys.table + SlotIn(e) + Slots(es[1..]);
    }
  }

  lemma OneTurn(sys: System, e: Event)
    requires Inv(sys) && Enabled(sys, e)
    ensures var before, now := sys.table + SlotIn(e), Next(sys, e).table;
            |now| == |before| && forall k :: 0 <= k < |now| ==>
              now[k].arg == before[k].arg && (now[k].pid > 0 <==> before[k].pid > 0)
  {
    if e.Reload? {
      var k := RestartsOne(sys.table, e.pid, e.newPid);
    }
  }

  lemma {:induction false} RunCount(sys: System, es: seq<Event>)
    requires Inv(sys) && Legal(sys, es)
    ensures |After(sys, es).childFd| == |sys.childFd| + |Collect(PidIn, es)| + |Reloads(es)|
    decreases |es|
  {
    hide Inv, Enabled, Next;
    if es != [] {
      NextKeeps(sys, es[0]);
      RunCount(Next(sys, es[0]), es[1..]);
    }
  }

  lemma {:induction false} SlotsOfSpawns(es: seq<Event>)
    ensures Slots(Spawns(es)) == Slots(es) && Collect(PidIn, Spawns(es)) == Collect(PidIn, es)
  {
    if es != [] {
      SlotsOfSpawns(es[1..]);
      CollectAppend(SlotIn, SpawnIn(es[0]), Spawns(es[1..]));
      CollectAppend(PidIn, SpawnIn(es[0]), Spawns(es[1..]));
      if es[0].Spawn? {
        CollectOne(SlotIn, es[0]);
        CollectOne(PidIn, es[0]);
      }
    }
  }

  lemma SlotsPointwise(spawns: seq<Event>)
    requires forall e :: e in spawns ==> e.Spawn?
    ensures |Slots(spawns)| == |spawns|
    ensures forall k :: 0 <= k < |spawns| ==> Slots(spawns)[k] == SlotIn(spawns[k])[0]
  {
    CollectSingletons(SlotIn, spawns);
  }

  /**
   * Under every interleaving of the spawn loop's turns (all of them or the first few), exits and reloads: the
   * slots in use hold distinct pids, exactly those of the children not yet waited for; slot k serves producer
   * k mod count, whichever worker is in it; every running worker is on the SIGTERM list; and the list has one
   * entry per successful fork.
   */
  lemma SupervisedRun(producers: seq<Producer>, forks: seq<int>, es: seq<Event>)
    requires producers != [] && Legal(NOTHING_SPAWNED, es)
    requires Spawns(es) <= SpawnTurns(producers, forks)
    ensures var sys := After(NOTHING_SPAWNED, es);
            && Inv(sys) && |sys.table| == |Spawns(es)|
            && (forall k :: 0 <= k < |sys.table| ==> (sys.table[k].pid > 0 <==> forks[k] > 0))
            && (forall k :: 0 <= k < |sys.table| && forks[k] > 0 ==> sys.table[k].arg == producers[k % |producers|])
            && |sys.childFd| == |Collect(PidIn, es)| + |Reloads(es)|
  {
    hide Next, Enabled;
    RunKeeps(NOTHING_SPAWNED, es);
    RunArgs(NOTHING_SPAWNED, es);
    RunCount(NOTHING_SPAWNED, es);
    SlotsOfSpawns(es);
    SlotsPointwise(Spawns(es));
    assert NOTHING_SPAWNED.table + Slots(es) == Slots(es);
    assert forall k :: 0 <= k < |Spawns(es)| ==> Spawns(es)[k] == SpawnTurns(producers, forks)[k];
  }

  /** When every exit has been waited for, the slots in use hold exactly the running workers. */
  lemma AllReaped(es: seq<Event>)
    requires Legal(NOTHING_SPAWNED, es)
    requires var sys := After(NOTHING_SPAWNED, es); forall pid :: pid in sys.children ==> pid in sys.live
    ensures Pids(After(NOTHING_SPAWNED, es).table) == After(NOTHING_SPAWNED, es).live
  {
    RunKeeps(NOTHING_SPAWNED, es);
  }

  /** The children an event starts. */
  predicate Starts(e: Event, pid: int) {
    pid > 0 && ((e.Spawn? && e.newPid == pid) || (e.Reload? && e.newPid == pid))
  }

  /** Who runs: the children started and not exited since. */
  lemma {:induction false} LiveAre(sys: System, es: seq<Event>, pid: int)
    requires Legal(sys, es)
    ensures pid in After(sys, es).live <==>
              || (pid in sys.live && Exit(pid) !in es)
              || exists i :: 0 <= i < |es| && Starts(es[i], pid) && Exit(pid) !in es[i + 1..]
    decreases |es|
  {
    hide Restarted, SlotIn, PidIn;
    if es != [] {
      var e, more := es[0], es[1..];
      LiveAre(Next(sys, e), more, pid);
      assert es == [e] + more;
      assert forall i :: 0 <= i < |more| ==> more[i] == es[i + 1] && more[i + 1..] == es[i + 2..];
    }
  }

  /** Who is yet to be waited for: the children started and not reaped since. */
  lemma {:induction false} ChildrenAre(sys: System, es: seq<Event>, pid: int)
    requires Legal(sys, es)
    ensures pid in After(sys, es).children <==>
              || (pid in sys.children && NotReaped(es, pid))
              || exists i :: 0 <= i < |es| && Starts(es[i], pid) && NotReaped(es[i + 1..], pid)
    decreases |es|
  {
    hide Restarted, SlotIn, PidIn;
    if es != [] {
      var e, more := es[0], es[1..];
      ChildrenAre(Next(sys, e), more, pid);
      assert es == [e] + more;
      assert forall i :: 0 <= i < |more| ==> more[i] == es[i + 1] && more[i + 1..] == es[i + 2..];
    }
  }

  predicate NotReaped(es: seq<Event>, pid: int) {
    forall e :: e in es ==> !(e.Reload? && e.pid == pid)
  }

  lemma TurnAppends(sys: System, e: Event)
    requires !e.Reload?
    ensures Next(sys, e).table == sys.table + SlotIn(e) && Next(sys, e).childFd == sys.childFd + PidIn(e)
  {
    assert e.Exit? ==> SlotIn(e) == [] && PidIn(e) == [];
  }

  /** Until the first reload the table and the list are what the spawn loop wrote, exits or not. */
  lemma {:induction false} StartUp(sys: System, es: seq<Event>)
    requires forall e :: e in es ==> !e.Reload?
    ensures After(sys, es).table == sys.table + Slots(es)
    ensures After(sys, es).childFd == sys.childFd + Collect(PidIn, es)
    decreases |es|
  {
    hide SlotIn, PidIn, Next;
    if es != [] {
      assert es[0] in es;
      TurnAppends(sys, es[0]);
      StartUp(Next(sys, es[0]), es[1..]);
      var slot, slots := SlotIn(es[0]), Slots(es[1..]);
      var pid, pids := PidIn(es[0]), Collect(PidIn, es[1..]);
      assert sys.table + slot + slots == sys.table + (slot + slots);
      assert sys.childFd + pid + pids == sys.childFd + (pid + pids);
    }
  }

  lemma {:induction false} RunAppend(sys: System, a: seq<Event>, b: seq<Event>)
    requires Legal(sys, a + b)
    ensures Legal(sys, a) && Legal(After(sys, a), b) && After(sys, a + b) == After(After(sys, a), b)
    decreases |a|
  {
    if a == [] {
      assert a + b == b;
    } else {
      assert (a + b)[1..] == a[1..] + b;
      RunAppend(Next(sys, a[0]), a[1..], b);
    }
  }

  lemma NoMoreSpawns(a: seq<Event>, b: seq<Event>)
    requires forall e :: e in b ==> !e.Spawn?
    ensures Spawns(a + b) == Spawns(a)
  {
    CollectAppend(SpawnIn, a, b);
    CollectEmpty(SpawnIn, b);
  }

  // ----- the size of the table -----

  /** Row-by-row indices up to connect_num rows stay in a table of `size` entries. */
  predicate IndicesFit(rows: nat, n: nat, size: nat) {
    forall row, col :: 0 <= row < rows && 0 <= col < n ==> Index(row, col, n) < size
  }

  function Index(row: int, col: int, n: int): int {
    row * n + col
  }

  /** connect_num rows of n entries. */
  function Entries(rows: nat, n: nat): nat {
    rows * n
  }

  lemma IndexBound(row: nat, col: nat, rows: nat, n: nat)
    requires row < rows && col < n
    ensures Index(row, col, n) < Entries(rows, n)
  {
    Distribute(row, 1, n);
    Distribute(rows - row - 1, row + 1, n);
    if rows > row + 1 {
      MultipleAtLeast(rows - row - 1, n);
    }
  }

  /** The counter that is incremented once per entry is the row-by-row index. */
  lemma IndexSteps(row: nat, col: nat, n: nat)
    ensures Index(row, col + 1, n) == Index(row, col, n) + 1
    ensures Index(row, n, n) == Index(row + 1, 0, n) && Index(0, 0, n) == 0
    ensures Index(row, 0, n) == Entries(row, n)
  {
    Distribute(row, 1, n);
  }

  lemma FitsWhole(rows: nat, n: nat, size: nat)
    ensures IndicesFit(rows, n, size) <==> Entries(rows, n) <= size
  {
    if IndicesFit(rows, n, size) {
      if rows > 0 && n > 0 {
        assert Index(rows - 1, n - 1, n) < size;
        IndexSteps(rows - 1, n - 1, n);
        IndexSteps(rows, 0, n);
      }
    } else {
      var row, col :| 0 <= row < rows && 0 <= col < n && Index(row, col, n) >= size;
      IndexBound(row, col, rows, n);
    }
  }

  /** The table is allocated for producers_count entries: enough exactly when connect_num is at most 1. */
  lemma AllocationFits(connectNum: nat, n: nat)
    requires n >= 1
    ensures IndicesFit(connectNum, n, n) <==> connectNum <= 1
  {
    if connectNum > 1 {
      assert Index(1, 0, n) == n;
    }
  }

  // ----- the code -----

  class Master {
    var table: array<Slot>
    var childFd: seq<int>
    var isInit: bool
    var master: int

    constructor (capacity: nat)
      ensures fresh(table) && table.Length == capacity && childFd == [] && !isInit
      ensures forall k :: 0 <= k < capacity ==> table[k] == EMPTY_SLOT
    {
      table := new Slot[capacity](_ => EMPTY_SLOT);
      childFd, isInit, master := [], false, 0;
    }

    /** start_worker_process in the parent; pid is what fork returned, self what getpid returns. */
    method StartWorkerProcess(arg: Producer, index: nat, pid: int, self: int)
      requires pid != 0 && index < table.Length && (!isInit ==> childFd == [])
      modifies this`childFd, this`isInit, this`master, table
      ensures pid < 0 ==> table[..] == old(table[..]) && childFd == old(childFd)
      ensures pid < 0 ==> isInit == old(isInit) && master == old(master)
      ensures pid > 0 ==> table[..] == old(table[..])[index := Slot(pid, arg)] && childFd == old(childFd) + [pid]
      ensures pid > 0 ==> isInit && master == if old(isInit) then old(master) else self
    {
      if pid > 0 {
        if !isInit {
          master := self;
          childFd := [];
          isInit := true;
        }
        table[index] := Slot(pid, arg);
        childFd := childFd + [pid];
      }
    }

    /** The SIGTERM list exists, and the master is known, from the first child on. */
    ghost predicate Initialised(self: int)
      reads this`childFd, this`isInit, this`master
    {
      (isInit <==> childFd != []) && (isInit ==> master == self)
    }

    /** After j turns of the spawn loop. */
    ghost predicate Spawning(turns: seq<Event>, j: nat, self: int)
      reads this, table
    {
      && j <= |turns| == |Slots(turns)| && |turns| <= table.Length && Initialised(self) && childFd == PidsUpTo(turns, j)
      && table[..j] == Slots(turns)[..j]
      && forall k :: j <= k < table.Length ==> table[k] == EMPTY_SLOT
    }

    /** The body of the spawn loop. */
    method SpawnOne(arg: Producer, j: nat, pid: int, self: int, ghost turns: seq<Event>)
      requires j < |turns| && turns[j] == Spawn(arg, pid) && pid != 0 && Spawning(turns, j, self)
      requires forall e :: e in turns ==> e.Spawn?
      modifies this`childFd, this`isInit, this`master, table
      ensures Spawning(turns, j + 1, self)
    {
      TurnPid(turns, j);
      SlotsPointwise(turns);
      hide Slots, PidsUpTo;
      StartWorkerProcess(arg, j, pid, self);
    }

    /** The spawn loop, with the results of its forks in order. */
    method SpawnAll(connectNum: nat, producers: seq<Producer>, forks: seq<int>, self: int)
      requires producers != [] && IndicesFit(connectNum, |producers|, table.Length)
      requires |forks| == Entries(connectNum, |producers|) && (forall k :: 0 <= k < |forks| ==> forks[k] != 0)
      requires Initialised(self) && childFd == [] && forall k :: 0 <= k < table.Length ==> table[k] == EMPTY_SLOT
      modifies this`childFd, this`isInit, this`master, table
      ensures Initialised(self) && |forks| <= table.Length
      ensures table[..|forks|] == Slots(SpawnTurns(producers, forks))
      ensures childFd == Collect(PidIn, SpawnTurns(producers, forks))
    {
      ghost var turns := SpawnTurns(producers, forks);
      var n, j := |producers|, 0;
      FitsWhole(connectNum, n, table.Length);
      IndexSteps(0, 0, n);
      IndexSteps(connectNum, 0, n);
      SpawningStarts(this, turns, self);
      hide Spawning, Initialised, Index, Entries, SpawnTurns, Slots, IndicesFit, SlotIn, PidIn, Collect;
      for i := 0 to connectNum
        invariant j == Index(i, 0, n) && Spawning(turns, j, self)
      {
        IndexSteps(i, 0, n);
        for c := 0 to n
          invariant j == Index(i, c, n) && Spawning(turns, j, self)
        {
          TurnAt(producers, forks, connectNum, i, c);
          SpawnOne(producers[c], j, forks[j], self, turns);
          j := j + 1;
        }
      }
      SpawningEnds(this, turns, self);
    }

    /**
     * One round of the wait loop: retPid was reaped, newPid is what fork returns for a replacement.
     * A process that is no worker is ignored; if fork fails the slot keeps the old pid.
     */
    method HandleExit(retPid: int, newPid: int, connectNum: nat, nsqdNum: nat, self: int)
      requires IndicesFit(connectNum, nsqdNum, table.Length) && Entries(connectNum, nsqdNum) <= table.Length
      requires Initialised(self) && isInit && newPid != 0 && retPid > 0
      requires DistinctPids(table[..Entries(connectNum, nsqdNum)])
      modifies this`childFd, this`isInit, this`master, table
      ensures Initialised(self)
      ensures var before := old(table[..Entries(connectNum, nsqdNum)]);
              && table[..Entries(connectNum, nsqdNum)]
                 == (if newPid > 0 then Restarted(before, retPid, newPid) else before)
              && childFd == old(childFd) + if newPid > 0 && retPid in Pids(before) then [newPid] else []
    {
      ghost var total := Entries(connectNum, nsqdNum);
      ghost var before := table[..total];
      ghost var hit := total;
      if retPid in Pids(before) {
        hit := RestartsOne(before, retPid, newPid);
      } else {
        RestartsNone(before, retPid, newPid);
      }
      ghost var goal := if newPid > 0 then Restarted(before, retPid, newPid) else before;
      ghost var started := if newPid > 0 && hit < total then [newPid] else [];
      IndexSteps(0, 0, nsqdNum);
      IndexSteps(connectNum, 0, nsqdNum);
      hide Restarted, DistinctPids, Pids, Index, Entries, IndicesFit;
      var k := 0;
      for i := 0 to connectNum
        invariant k == Index(i, 0, nsqdNum) && isInit && Initialised(self)
        invariant table[..total] == if k <= hit then before else goal
        invariant childFd == if k <= hit then old(childFd) else old(childFd) + started
      {
        IndexSteps(i, 0, nsqdNum);
        for j := 0 to nsqdNum
          invariant k == Index(i, j, nsqdNum) && isInit && Initialised(self)
          invariant table[..total] == if k <= hit then before else goal
          invariant childFd == if k <= hit then old(childFd) else old(childFd) + started
        {
          IndexBound(i, j, connectNum, nsqdNum);
          IndexSteps(i, j, nsqdNum);
          assert k != hit ==> table[..total][k] == before[k];
          ghost var was := table[..total];
          if table[k].pid == retPid {
            assert k == hit && table[k] == was[k];
            StartWorkerProcess(table[k].arg, k, newPid, self);
            assert newPid > 0 ==> table[..total] == was[k := Slot(newPid, was[k].arg)];
          }
          k := k + 1;
        }
      }
    }

    /** The wait loop over the exits it is told of; the system goes through the events es. */
    method Supervise(ghost sys: System, es: seq<Event>, connectNum: nat, nsqdNum: nat, self: int)
      requires IndicesFit(connectNum, nsqdNum, table.Length) && Entries(connectNum, nsqdNum) <= table.Length
      requires Initialised(self) && Inv(sys) && Legal(sys, es)
      requires table[..Entries(connectNum, nsqdNum)] == sys.table && childFd == sys.childFd
      requires forall e :: e in es ==> !e.Spawn?
      modifies this`childFd, this`isInit, this`master, table
      ensures Initialised(self)
      ensures table[..Entries(connectNum, nsqdNum)] == After(sys, es).table && childFd == After(sys, es).childFd
    {
      ghost var now := sys;
      for i := 0 to |es|
        invariant Initialised(self)
        invariant table[..Entries(connectNum, nsqdNum)] == now.table && childFd == now.childFd
        invariant Inv(now) && Legal(now, es[i..]) && After(now, es[i..]) == After(sys, es)
      {
        assert es[i] in es;
        assert es[i..][0] == es[i] && es[i..][1..] == es[i + 1..];
        NextKeeps(now, es[i]);
        if es[i].Reload? {
          ReloadNeedsWorker(now, es[i]);
          HandleExit(es[i].pid, es[i].newPid, connectNum, nsqdNum, self);
        }
        now := Next(now, es[i]);
      }
    }

    /** The SIGTERM branch of signal_handle: the pids signalled, in order. */
    method Terminate(current: int) returns (signalled: seq<int>)
      ensures signalled == if current == master then childFd else []
    {
      signalled := [];
      if current == master {
        for i := 0 to |childFd|
          invariant signalled == childFd[..i]
        {
          signalled := signalled + [childFd[i]];
        }
        assert childFd[..|childFd|] == childFd;
      }
    }
  }

  lemma TurnAt(producers: seq<Producer>, forks: seq<int>, rows: nat, row: nat, col: nat)
    requires row < rows && col < |producers| && |forks| == Entries(rows, |producers|)
    ensures var k := Index(row, col, |producers|);
            && 0 <= k < |forks| && Index(row, col + 1, |producers|) == k + 1
            && SpawnTurns(producers, forks)[k] == Spawn(producers[col], forks[k])
  {
    IndexBound(row, col, rows, |producers|);
    IndexSteps(row, col, |producers|);
    FlatIndex(row, |producers|, col);
    if row > 0 {
      MultipleAtLeast(row, |producers|);
    }
  }

  ghost function PidsUpTo(turns: seq<Event>, j: nat): seq<int>
    requires j <= |turns|
  {
    Collect(PidIn, turns[..j])
  }

  lemma SpawningStarts(m: Master, turns: seq<Event>, self: int)
    requires |turns| <= m.table.Length && (forall e :: e in turns ==> e.Spawn?)
    requires m.Initialised(self) && m.childFd == []
    requires forall k :: 0 <= k < m.table.Length ==> m.table[k] == EMPTY_SLOT
    ensures m.Spawning(turns, 0, self)
  {
    SlotsPointwise(turns);
  }

  lemma SpawningEnds(m: Master, turns: seq<Event>, self: int)
    requires m.Spawning(turns, |turns|, self)
    ensures m.Initialised(self) && |turns| <= m.table.Length
    ensures m.table[..|turns|] == Slots(turns) && m.childFd == Collect(PidIn, turns)
  {
    assert turns[..|turns|] == turns && Slots(turns)[..|turns|] == Slots(turns);
  }

  lemma TurnPid(turns: seq<Event>, j: nat)
    requires j < |turns|
    ensures PidsUpTo(turns, j + 1) == PidsUpTo(turns, j) + PidIn(turns[j])
  {
    assert turns[..j + 1] == turns[..j] + [turns[j]];
    CollectAppend(PidIn, turns[..j], [turns[j]]);
    CollectOne(PidIn, turns[j]);
  }

  lemma ReloadNeedsWorker(sys: System, e: Event)
    requires Inv(sys) && e.Reload? && Enabled(sys, e)
    ensures e.pid > 0 && e.pid in Pids(sys.table) && sys.childFd != []
  {
  }

  /**
   * Nsq::subscribe from the allocation of the table to a SIGTERM. During start-up children may exit between
   * the forks; afterwards the wait loop sees exits and reloads in any order. In the end the slots in use hold
   * distinct pids, exactly those of the children not yet waited for; slot k serves producer k mod count; and
   * the master signals every worker that runs, restarted ones included.
   */
  method Subscribe(
    connectNum: nat, producers: seq<Producer>, capacity: nat, forks: seq<int>, es: seq<Event>,
    self: int, current: int, ghost startUp: seq<Event>)
    returns (m: Master, signalled: seq<int>)
    requires producers != [] && IndicesFit(connectNum, |producers|, capacity)
    requires |forks| == Entries(connectNum, |producers|) && (forall k :: 0 <= k < |forks| ==> forks[k] != 0)
    requires Spawns(startUp) == SpawnTurns(producers, forks) && (forall e :: e in startUp ==> !e.Reload?)
    requires Legal(NOTHING_SPAWNED, startUp + es) && (forall e :: e in es ==> !e.Spawn?)
    ensures m.table.Length == capacity && |forks| <= capacity
    ensures var sys, table := After(NOTHING_SPAWNED, startUp + es), m.table[..|forks|];
            && DistinctPids(table) && Pids(table) == sys.children
            && (forall k :: 0 <= k < |forks| ==> (table[k].pid > 0 <==> forks[k] > 0))
            && (forall k :: 0 <= k < |forks| && forks[k] > 0 ==> table[k].arg == producers[k % |producers|])
            && (current == self ==> forall pid :: pid in sys.live ==> pid in signalled)
            && (current != m.master ==> signalled == [])
  {
    hide Legal, After, DistinctPids, Pids, Enabled, Next, SpawnTurns, Spawns, Slots, Collect;
    m := new Master(capacity);
    m.SpawnAll(connectNum, producers, forks, self);
    ghost var sys := After(NOTHING_SPAWNED, startUp);
    RunAppend(NOTHING_SPAWNED, startUp, es);
    NothingSpawned();
    RunKeeps(NOTHING_SPAWNED, startUp);
    StartUp(NOTHING_SPAWNED, startUp);
    SlotsOfSpawns(startUp);
    FitsWhole(connectNum, |producers|, capacity);
    assert NOTHING_SPAWNED.table + Slots(startUp) == Slots(startUp);
    assert NOTHING_SPAWNED.childFd + Collect(PidIn, startUp) == Collect(PidIn, startUp);
    m.Supervise(sys, es, connectNum, |producers|, self);
    NoMoreSpawns(startUp, es);
    SupervisedRun(producers, forks, startUp + es);
    signalled := m.Terminate(current);
  }

  lemma NothingSpawned()
    ensures Inv(NOTHING_SPAWNED)
  {
  }
}
