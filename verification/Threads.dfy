/** The scheduler's 64-slot thread table, and the cores that take threads from it. */
module Threads {
  import opened Collections

  const MAX_THREADS: nat := 64

  datatype ThreadState = Empty | Ready | Running | Blocked

  datatype Thread = Thread(id: nat, parent: nat, state: ThreadState, sp: nat, ip: nat)

  /** What a thread was spawned with. */
  datatype Task = Task(pid: nat, sp: nat, ip: nat)

  /** The table holds the queue: the spawned tasks in slot order with ids from 1 on, the first `dispatched` of them
      running, the others ready, and then only empty slots. */
  ghost predicate Holds(threads: seq<Thread>, count: nat, spawned: seq<Task>, dispatched: nat) {
    && |threads| == MAX_THREADS && count == |spawned| <= MAX_THREADS && dispatched <= |spawned|
    && (forall i :: 0 <= i < |spawned| ==>
          threads[i] == Thread(i + 1, spawned[i].pid, if i < dispatched then Running else Ready, spawned[i].sp, spawned[i].ip))
    && (forall i :: |spawned| <= i < MAX_THREADS ==> threads[i].state == Empty)
  }

  class Table {
    const threads: array<Thread>
    var threadCount: nat
    var ticks: nat
    /** The abstract queue: everything ever spawned, of which a prefix was dispatched. */
    ghost var spawned: seq<Task>
    ghost var dispatched: nat

    ghost predicate Valid()
      reads this, threads
    {
      Holds(threads[..], threadCount, spawned, dispatched)
    }

    constructor ()
      ensures Valid() && spawned == [] && dispatched == 0 && fresh(threads)
    {
      threads := new Thread[MAX_THREADS](_ => Thread(0, 0, Empty, 0, 0));
      threadCount, ticks, spawned, dispatched := 0, 0, [], 0;
    }

    /** Appends to the queue, and fails exactly when 64 threads were spawned before. */
    method SpawnThread(pid: nat, sp: nat, ip: nat) returns (r: Option<nat>)
      requires Valid()
      modifies this`threadCount, this`spawned, threads
      ensures Valid()
      ensures |old(spawned)| < 64 ==> spawned == old(spawned) + [Task(pid, sp, ip)] && r == Some(|spawned|)
      ensures |old(spawned)| == 64 ==> spawned == old(spawned) && r == None
    {
      for i := 0 to MAX_THREADS
        invariant Valid() && spawned == old(spawned) && i <= |spawned|
      {
        if threads[i].state == Empty {
          threadCount := threadCount + 1;
          var tid := threadCount;
          threads[i] := Thread(tid, pid, Ready, sp, ip);
          spawned := spawned + [Task(pid, sp, ip)];
          return Some(tid);
        }
      }
      return None;
    }

    /** Takes the oldest task that was not taken yet. */
    method PopReadyThread() returns (r: Option<(nat, nat)>)
      requires Valid()
      modifies this`dispatched, threads
      ensures Valid()
      ensures old(dispatched) < |spawned| ==>
        && dispatched == old(dispatched) + 1
        && r == Some((spawned[old(dispatched)].ip, spawned[old(dispatched)].sp))
      ensures old(dispatched) == |spawned| ==> dispatched == old(dispatched) && r == None
    {
      for i := 0 to MAX_THREADS
        invariant Valid() && dispatched == old(dispatched)
        invariant i <= dispatched || |spawned| == dispatched
      {
        if threads[i].state == Ready {
          threads[i] := threads[i].(state := Running);
          dispatched := dispatched + 1;
          return Some((threads[i].ip, threads[i].sp));
        }
      }
      return None;
    }

    method Tick()
      modifies this`ticks
      ensures ticks == old(ticks) + 1
    {
      ticks := ticks + 1;
    }
  }

  /** One critical section under the scheduler lock. */
  datatype Event = Spawn(task: Task) | Scan(core: nat) | TimerTick

  /** A worker core scans the table until it gets a thread, and then never comes back. */
  predicate MayScan(core: nat, takers: seq<nat>) {
    1 <= core <= 3 && core !in takers
  }

  ghost predicate DistinctWorkers(takers: seq<nat>) {
    && (forall i :: 0 <= i < |takers| ==> 1 <= takers[i] <= 3)
    && (forall i, j :: 0 <= i < j < |takers| ==> takers[i] != takers[j])
  }

  function Members(s: seq<nat>): set<nat> {
    set x | x in s
  }

  lemma {:induction false} DistinctSize(s: seq<nat>)
    requires forall i, j :: 0 <= i < j < |s| ==> s[i] != s[j]
    ensures |Members(s)| == |s|
  {
    if s != [] {
      var front, last := s[..|s| - 1], s[|s| - 1];
      DistinctSize(front);
      assert Members(s) == Members(front) + {last};
    }
  }

  lemma AtMostThree(takers: seq<nat>)
    requires DistinctWorkers(takers)
    ensures |takers| <= 3
  {
    DistinctSize(takers);
    assert Members(takers) <= {1, 2, 3};
    SubsetSize(Members(takers), {1, 2, 3});
  }

  /** In every sequence of spawns, scans by worker cores and timer ticks: the threads handed out are, in order, the
      oldest spawned ones, the thread number `j` went to the one core `takers[j]`, no core got two, at most three
      threads ever run, and a scan gets a thread exactly if its worker has none and one is waiting. */
  method Run(t: Table, events: seq<Event>) returns (takers: seq<nat>, given: seq<(nat, nat)>, accepted: seq<Task>)
    requires t.Valid() && t.spawned == [] && t.dispatched == 0
    modifies t, t.threads
    ensures t.Valid() && t.dispatched == |takers| == |given| <= 3 && DistinctWorkers(takers)
    ensures t.spawned == accepted && |given| <= |accepted|
    ensures forall j :: 0 <= j < |given| ==> given[j] == (accepted[j].ip, accepted[j].sp)
    ensures accepted == FirstSpawns(events) && takers == Takers(events)
  {
    hide Holds, Takers, FirstSpawns, DistinctWorkers;
    takers, given, accepted := [], [], [];
    NoEvents();
    var i := 0;
    while i < |events|
      invariant 0 <= i <= |events| && t.Valid()
      invariant t.dispatched == |takers| == |given| <= |accepted| && DistinctWorkers(takers)
      invariant t.spawned == accepted == FirstSpawns(events[..i]) && takers == Takers(events[..i])
      invariant forall j :: 0 <= j < |given| ==> given[j] == (accepted[j].ip, accepted[j].sp)
    {
      NextEvent(events, i);
      match events[i] {
        case Spawn(task) =>
          var r := t.SpawnThread(task.pid, task.sp, task.ip);
          if r.Some? { accepted := accepted + [task]; }
        case Scan(core) =>
          if MayScan(core, takers) {
            var r := t.PopReadyThread();
            if r.Some? {
              OneMoreWorker(takers, core);
              takers, given := takers + [core], given + [r.value];
            }
          }
        case TimerTick => t.Tick();
      }
      i := i + 1;
    }
    assert events[..|events|] == events;
    AtMostThree(takers);
  }

  /** The workers that get a thread, in order: a worker without one, when it scans while more threads were accepted than
      handed out. */
  function Takers(events: seq<Event>): seq<nat> {
    if events == [] then [] else
      var front, e := events[..|events| - 1], events[|events| - 1];
      var before := Takers(front);
      if e.Scan? && 1 <= e.core <= 3 && e.core !in before && |before| < |FirstSpawns(front)| then before + [e.core] else before
  }

  lemma NoEvents()
    ensures FirstSpawns([]) == [] && Takers([]) == [] && DistinctWorkers([])
  {
  }

  lemma OneMoreWorker(takers: seq<nat>, core: nat)
    requires DistinctWorkers(takers) && MayScan(core, takers)
    ensures DistinctWorkers(takers + [core])
  {
  }

  lemma NextEvent(events: seq<Event>, i: nat)
    requires i < |events|
    ensures var accepted, e := FirstSpawns(events[..i]), events[i];
            FirstSpawns(events[..i + 1]) == if e.Spawn? && |accepted| < 64 then accepted + [e.task] else accepted
    ensures var takers, e := Takers(events[..i]), events[i];
            Takers(events[..i + 1]) ==
            if e.Scan? && MayScan(e.core, takers) && |takers| < |FirstSpawns(events[..i])| then takers + [e.core] else takers
  {
    assert events[..i + 1][..i] == events[..i];
  }

  /** A worker that scans while a thread is waiting has a thread from then on. */
  lemma {:induction false} ScanIsServed(events: seq<Event>, k: nat, core: nat)
    requires k < |events| && events[k] == Scan(core) && 1 <= core <= 3
    requires |Takers(events[..k])| < |FirstSpawns(events[..k])|
    ensures core in Takers(events)
  {
    var front := events[..|events| - 1];
    if k == |front| {
      assert events[..k] == front;
    } else {
      assert front[..k] == events[..k];
      ScanIsServed(front, k, core);
    }
  }

  /** The tasks of the first 64 spawn events. */
  function FirstSpawns(events: seq<Event>): (r: seq<Task>)
    ensures |r| <= 64
  {
    if events == [] then [] else
      var before, e := FirstSpawns(events[..|events| - 1]), events[|events| - 1];
      if e.Spawn? && |before| < 64 then before + [e.task] else before
  }
}
