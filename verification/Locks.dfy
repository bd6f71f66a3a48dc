/** The kernel's spinlocks: what each service takes and releases, on any number of cores, with timer interrupts. */
module Locks {

  datatype Lock = Cdt | Mapper | Allocator | Scheduler

  /** `Use` is an access to the data that the lock guards: the derivation tree, the page tables, the frame allocator and
      the thread table. */
  datatype Act = Acquire(lock: Lock) | Use(lock: Lock) | Release(lock: Lock) | EnableInterrupts

  function Guarded(l: Lock): seq<Act> { [Acquire(l), Use(l), Release(l)] }

  /** The lock operations and accesses of the kernel's services, in program order. */
  const ALLOCATE := Guarded(Allocator)
  const MAP_PAGE :=
    [Acquire(Mapper), Acquire(Allocator), Use(Mapper), Use(Allocator), Release(Allocator), Release(Mapper)]
  const LOAD_PAGE := ALLOCATE + MAP_PAGE
  const GRANT := [Acquire(Cdt), Use(Cdt)] + LOAD_PAGE + [Release(Cdt)]
  const REJECTED_GRANT := Guarded(Cdt)
  const SCHEDULE := Guarded(Scheduler)
  const INIT_MAPPER := Guarded(Mapper)

  /** `Boot` is core 0 before `sti`, `Supervisor` core 0 after it; a `Worker` scans the thread table with
      interrupts off until it drops to `User`. */
  datatype Mode = Boot | Supervisor | Worker | User

  /** `todo` is the rest of the service the core is in; `interrupts` is its interrupt flag. */
  datatype Core = Core(mode: Mode, interrupts: bool, todo: seq<Act>)

  datatype State = State(cores: seq<Core>, owner: map<Lock, nat>)

  predicate BootService(p: seq<Act>) {
    p == ALLOCATE || p == MAP_PAGE || p == LOAD_PAGE || p == REJECTED_GRANT || p == SCHEDULE || p == INIT_MAPPER
  }

  predicate Syscall(p: seq<Act>) {
    p == GRANT || p == REJECTED_GRANT || p == MAP_PAGE || p == SCHEDULE
  }

  datatype Step =
    | StartBoot(service: seq<Act>) | Sti | Scan | Dispatch | EnterSyscall(service: seq<Act>)
    | TimerInterrupt | Execute

  predicate Runnable(s: State, c: nat) {
    c < |s.cores| && s.cores[c].todo != [] && (s.cores[c].todo[0].Acquire? ==> s.cores[c].todo[0].lock !in s.owner)
  }

  predicate Enabled(s: State, c: nat, a: Step) {
    c < |s.cores| &&
    var core := s.cores[c];
    match a
    case StartBoot(p) => core.mode == Boot && core.todo == [] && BootService(p)
    case Sti => core.mode == Boot && core.todo == []
    case Scan => core.mode == Worker && core.todo == []
    case Dispatch => core.mode == Worker && core.todo == []
    case EnterSyscall(p) => core.mode == User && core.todo == [] && Syscall(p)
    case TimerInterrupt => core.interrupts
    case Execute => Runnable(s, c)
  }

  function ExecuteOn(s: State, c: nat): State
    requires Runnable(s, c)
  {
    var core := s.cores[c];
    var rest := core.(todo := core.todo[1..]);
    match core.todo[0]
    case Acquire(l) => State(s.cores[c := rest], s.owner[l := c])
    case Use(_) => s.(cores := s.cores[c := rest])
    case Release(l) => State(s.cores[c := rest], s.owner - {l})
    case EnableInterrupts => s.(cores := s.cores[c := rest.(interrupts := true)])
  }

  /** A timer interrupt runs `tick` with interrupts off and then returns to whatever it interrupted; a
      system call also runs with interrupts off. */
  function Next(s: State, c: nat, a: Step): State
    requires Enabled(s, c, a)
  {
    var core := s.cores[c];
    match a
    case StartBoot(p) => s.(cores := s.cores[c := core.(todo := p)])
    case Sti => s.(cores := s.cores[c := Core(Supervisor, true, [])])
    case Scan => s.(cores := s.cores[c := core.(todo := SCHEDULE)])
    case Dispatch => s.(cores := s.cores[c := Core(User, true, [])])
    case EnterSyscall(p) => s.(cores := s.cores[c := Core(User, false, p + [EnableInterrupts])])
    case TimerInterrupt =>
      s.(cores := s.cores[c := core.(interrupts := false, todo := SCHEDULE + [EnableInterrupts] + core.todo)])
    case Execute => ExecuteOn(s, c)
  }

  ghost predicate Init(s: State) {
    && s.owner == map[] && s.cores != [] && s.cores[0] == Core(Boot, false, [])
    && forall c :: 1 <= c < |s.cores| ==> s.cores[c] == Core(Worker, false, [])
  }

  function Rank(l: Lock): nat {
    match l
    case Cdt => 0
    case Mapper => 1
    case Allocator => 2
    case Scheduler => 3
  }

  /** Run with the locks `held`, the operations take locks in the order CDT < MAPPER < ALLOCATOR, take SCHEDULER
      alone, use and release only what they hold, enable interrupts only without locks, and end without locks. */
  predicate Disciplined(todo: seq<Act>, held: set<Lock>) {
    if todo == [] then held == {}
    else match todo[0]
      case Acquire(l) =>
        && (forall h :: h in held ==> Rank(h) < Rank(l)) && (l == Scheduler ==> held == {})
        && Disciplined(todo[1..], held + {l})
      case Use(l) => l in held && Disciplined(todo[1..], held)
      case Release(l) => l in held && Disciplined(todo[1..], held - {l})
      case EnableInterrupts => held == {} && todo[1..] == []
  }

  function Held(s: State, c: nat): set<Lock> {
    set l | l in s.owner && s.owner[l] == c
  }

  /** Every core follows the lock discipline, and its interrupts are on only where it holds nothing. */
  ghost predicate Inv(s: State) {
    && (forall l :: l in s.owner ==> s.owner[l] < |s.cores|)
    && (forall c: nat :: c < |s.cores| ==> Disciplined(s.cores[c].todo, Held(s, c)))
    && (forall c: nat :: c < |s.cores| ==> InterruptsSafe(s.cores[c]))
  }

  /** Interrupts are never on on a booting or scanning core; elsewhere they are on exactly outside kernel services, and
      every service ends with turning them on again. */
  predicate InterruptsSafe(core: Core) {
    if core.mode == Boot || core.mode == Worker then !core.interrupts && EnableInterrupts !in core.todo
    else core.interrupts == (core.todo == []) && (core.todo != [] ==> core.todo[|core.todo| - 1] == EnableInterrupts)
  }

  /** Prepending one operation. */
  lemma Prepend(a: Act, rest: seq<Act>, held: set<Lock>, after: set<Lock>)
    requires Disciplined(rest, after)
    requires a.Acquire? ==> (forall h :: h in held ==> Rank(h) < Rank(a.lock)) && (a.lock == Scheduler ==> held == {})
    requires a.Acquire? ==> after == held + {a.lock}
    requires a.Use? ==> a.lock in held && after == held
    requires a.Release? ==> a.lock in held && after == held - {a.lock}
    requires a.EnableInterrupts? ==> held == {} && rest == []
    ensures Disciplined([a] + rest, held)
  {
    assert ([a] + rest)[1..] == rest;
  }

  lemma GuardedDisciplined(l: Lock, rest: seq<Act>, held: set<Lock>)
    requires Disciplined(rest, held) && (forall h :: h in held ==> Rank(h) < Rank(l)) && (l == Scheduler ==> held == {})
    ensures Disciplined(Guarded(l) + rest, held)
  {
    hide Disciplined;
    assert l !in held;
    Prepend(Release(l), rest, held + {l}, held);
    Prepend(Use(l), [Release(l)] + rest, held + {l}, held + {l});
    Prepend(Acquire(l), [Use(l)] + ([Release(l)] + rest), held, held + {l});
    assert [Acquire(l)] + ([Use(l)] + ([Release(l)] + rest)) == Guarded(l) + rest;
  }

  lemma MapPageDisciplined(rest: seq<Act>, held: set<Lock>)
    requires Disciplined(rest, held) && held <= {Cdt}
    ensures Disciplined(MAP_PAGE + rest, held)
  {
    hide Disciplined;
    var one, two := held + {Mapper}, held + {Mapper} + {Allocator};
    var a := [Release(Mapper)] + rest;
    Prepend(Release(Mapper), rest, one, held);
    var b := [Release(Allocator)] + a;
    Prepend(Release(Allocator), a, two, one);
    var c := [Use(Allocator)] + b;
    Prepend(Use(Allocator), b, two, two);
    var d := [Use(Mapper)] + c;
    Prepend(Use(Mapper), c, two, two);
    var e := [Acquire(Allocator)] + d;
    Prepend(Acquire(Allocator), d, one, two);
    Prepend(Acquire(Mapper), e, held, one);
    assert MAP_PAGE + rest == [Acquire(Mapper)] + e;
  }

  lemma LoadPageDisciplined(rest: seq<Act>, held: set<Lock>)
    requires Disciplined(rest, held) && held <= {Cdt}
    ensures Disciplined(LOAD_PAGE + rest, held)
  {
    hide Disciplined;
    MapPageDisciplined(rest, held);
    GuardedDisciplined(Allocator, MAP_PAGE + rest, held);
    assert LOAD_PAGE + rest == ALLOCATE + (MAP_PAGE + rest);
  }

  lemma GrantSplit(rest: seq<Act>)
    ensures GRANT + rest == [Acquire(Cdt)] + ([Use(Cdt)] + (LOAD_PAGE + ([Release(Cdt)] + rest)))
  {
    hide LOAD_PAGE;
  }

  lemma GrantDisciplined(rest: seq<Act>)
    requires Disciplined(rest, {})
    ensures Disciplined(GRANT + rest, {})
  {
    assert {Cdt} - {Cdt} == {};
    Prepend(Release(Cdt), rest, {Cdt}, {});
    hide Disciplined, LOAD_PAGE, GRANT;
    var load := LOAD_PAGE + ([Release(Cdt)] + rest);
    LoadPageDisciplined([Release(Cdt)] + rest, {Cdt});
    Prepend(Use(Cdt), load, {Cdt}, {Cdt});
    Prepend(Acquire(Cdt), [Use(Cdt)] + load, {}, {Cdt});
    GrantSplit(rest);
  }

  /** All services of the kernel follow the discipline. */
  lemma ServicesDisciplined(p: seq<Act>, rest: seq<Act>)
    requires (BootService(p) || Syscall(p)) && Disciplined(rest, {})
    ensures Disciplined(p + rest, {})
  {
    hide Disciplined;
    if p == GRANT { GrantDisciplined(rest); }
    if p == MAP_PAGE { MapPageDisciplined(rest, {}); }
    if p == LOAD_PAGE { LoadPageDisciplined(rest, {}); }
    if p == ALLOCATE { GuardedDisciplined(Allocator, rest, {}); }
    if p == REJECTED_GRANT { GuardedDisciplined(Cdt, rest, {}); }
    if p == SCHEDULE { GuardedDisciplined(Scheduler, rest, {}); }
    if p == INIT_MAPPER { GuardedDisciplined(Mapper, rest, {}); }
  }

  lemma InterruptsDisciplined()
    ensures Disciplined([], {}) && Disciplined([EnableInterrupts], {})
  {
    assert [EnableInterrupts][1..] == [];
  }

  /** Starting something on a core that holds nothing. */
  lemma StartInv(s: State, c: nat, core: Core)
    requires Inv(s) && c < |s.cores| && s.cores[c].todo == [] && Disciplined(core.todo, {})
    requires InterruptsSafe(core)
    ensures Inv(s.(cores := s.cores[c := core]))
  {
    var t := s.(cores := s.cores[c := core]);
    assert Disciplined(s.cores[c].todo, Held(s, c));
    forall d: nat | d < |t.cores| ensures Disciplined(t.cores[d].todo, Held(t, d)) {
      assert Held(t, d) == Held(s, d) && Disciplined(s.cores[d].todo, Held(s, d));
    }
  }

  lemma ExecuteInv(s: State, c: nat)
    requires Inv(s) && Runnable(s, c)
    ensures Inv(ExecuteOn(s, c))
  {
    var t, a := ExecuteOn(s, c), s.cores[c].todo[0];
    assert Disciplined(s.cores[c].todo, Held(s, c));
    assert t.cores[c].todo == s.cores[c].todo[1..];
    forall d: nat | d < |t.cores| ensures Disciplined(t.cores[d].todo, Held(t, d)) {
      assert Disciplined(s.cores[d].todo, Held(s, d));
      if d == c {
        match a
        case Acquire(l) => assert Held(t, c) == Held(s, c) + {l};
        case Use(_) => assert Held(t, c) == Held(s, c);
        case Release(l) => assert Held(t, c) == Held(s, c) - {l};
        case EnableInterrupts => assert Held(t, c) == Held(s, c);
      } else {
        assert Held(t, d) == Held(s, d);
      }
    }
    assert InterruptsSafe(s.cores[c]) && a in s.cores[c].todo;
    assert InterruptsSafe(t.cores[c]);
  }

  lemma SafeCore(s: State, c: nat)
    requires Inv(s) && c < |s.cores|
    ensures InterruptsSafe(s.cores[c])
  {
  }

  lemma StepInv(s: State, c: nat, a: Step)
    requires Inv(s) && Enabled(s, c, a)
    ensures Inv(Next(s, c, a))
  {
    hide Disciplined, Inv, Runnable, ExecuteOn;
    InterruptsDisciplined();
    SafeCore(s, c);
    var core := s.cores[c];
    match a
    case StartBoot(p) =>
      ServicesDisciplined(p, []);
      assert p + [] == p;
      StartInv(s, c, core.(todo := p));
    case Sti => StartInv(s, c, Core(Supervisor, true, []));
    case Scan =>
      ServicesDisciplined(SCHEDULE, []);
      assert SCHEDULE + [] == SCHEDULE;
      StartInv(s, c, core.(todo := SCHEDULE));
    case Dispatch => StartInv(s, c, Core(User, true, []));
    case EnterSyscall(p) =>
      ServicesDisciplined(p, [EnableInterrupts]);
      StartInv(s, c, Core(User, false, p + [EnableInterrupts]));
    case TimerInterrupt =>
      ServicesDisciplined(SCHEDULE, [EnableInterrupts]);
      assert SCHEDULE + [EnableInterrupts] + core.todo == SCHEDULE + [EnableInterrupts];
      StartInv(s, c, core.(interrupts := false, todo := SCHEDULE + [EnableInterrupts]));
    case Execute => ExecuteInv(s, c);
  }

  /** Among the locks that are taken, one has the highest rank. */
  lemma HighestTaken(s: State) returns (l: Lock)
    requires s.owner != map[]
    ensures l in s.owner && forall m :: m in s.owner ==> Rank(m) <= Rank(l)
  {
    l :| l in s.owner;
    if Cdt in s.owner { l := Cdt; }
    if Mapper in s.owner { l := Mapper; }
    if Allocator in s.owner { l := Allocator; }
    if Scheduler in s.owner { l := Scheduler; }
  }

  /** No deadlock: as long as some core is inside a kernel service, some core inside one can go on. */
  lemma SomeCoreRuns(s: State, c: nat) returns (d: nat)
    requires Inv(s) && c < |s.cores| && s.cores[c].todo != []
    ensures Runnable(s, d)
  {
    if s.owner == map[] {
      d := c;
    } else {
      var l := HighestTaken(s);
      d := s.owner[l];
      assert l in Held(s, d) && Disciplined(s.cores[d].todo, Held(s, d));
      assert s.cores[d].todo != [];
    }
  }

  function Work(cores: seq<Core>): nat {
    if cores == [] then 0 else |cores[0].todo| + Work(cores[1..])
  }

  lemma {:induction false} WorkUpdate(cores: seq<Core>, c: nat, core: Core)
    requires c < |cores|
    ensures Work(cores[c := core]) == Work(cores) - |cores[c].todo| + |core.todo|
  {
    if c == 0 {
      assert cores[c := core][1..] == cores[1..];
    } else {
      assert cores[c := core][1..] == cores[1..][c - 1 := core];
      WorkUpdate(cores[1..], c - 1, core);
    }
  }

  lemma {:induction false} NoWork(cores: seq<Core>, c: nat)
    requires Work(cores) == 0 && c < |cores|
    ensures cores[c].todo == []
  {
    if c > 0 { NoWork(cores[1..], c - 1); }
  }

  lemma {:induction false} SomeWork(cores: seq<Core>) returns (c: nat)
    requires Work(cores) > 0
    ensures c < |cores| && cores[c].todo != []
  {
    if cores[0].todo != [] {
      c := 0;
    } else {
      c := SomeWork(cores[1..]);
      c := c + 1;
    }
  }

  lemma ExecuteWork(s: State, c: nat)
    requires Runnable(s, c)
    ensures Work(ExecuteOn(s, c).cores) == Work(s.cores) - 1
  {
    var rest := s.cores[c].todo[1..];
    assert exists core: Core :: ExecuteOn(s, c).cores == s.cores[c := core] && core.todo == rest by {
      assert ExecuteOn(s, c).cores == s.cores[c := ExecuteOn(s, c).cores[c]];
    }
    hide *;
    var core: Core :| ExecuteOn(s, c).cores == s.cores[c := core] && core.todo == rest;
    WorkUpdate(s.cores, c, core);
  }

  /** The cores of `schedule` can execute one operation each, in this order. */
  ghost predicate CanExecute(s: State, schedule: seq<nat>)
    decreases |schedule|
  {
    schedule == [] || (Runnable(s, schedule[0]) && CanExecute(ExecuteOn(s, schedule[0]), schedule[1..]))
  }

  ghost function AfterSchedule(s: State, schedule: seq<nat>): State
    requires CanExecute(s, schedule)
    decreases |schedule|
  {
    if schedule == [] then s else AfterSchedule(ExecuteOn(s, schedule[0]), schedule[1..])
  }

  /** A core in user mode or in the supervisor loop, with its interrupts on. */
  predicate Responsive(core: Core) {
    core.mode == Boot || core.mode == Worker || core.interrupts
  }

  /** From every good state the services under way can all be finished, which leaves every lock free. */
  lemma {:induction false} CanDrain(s: State) returns (schedule: seq<nat>)
    requires Inv(s)
    ensures CanExecute(s, schedule)
    ensures var t := AfterSchedule(s, schedule);
            t.owner == map[] && forall c: nat :: c < |t.cores| ==> t.cores[c].todo == [] && Responsive(t.cores[c])
    decreases Work(s.cores)
  {
    hide Disciplined;
    if Work(s.cores) == 0 {
      schedule := [];
      forall c: nat | c < |s.cores| ensures s.cores[c].todo == [] { NoWork(s.cores, c); }
      AllFreeAtRest(s);
    } else {
      var c := SomeWork(s.cores);
      var d := SomeCoreRuns(s, c);
      ExecuteInv(s, d);
      ExecuteWork(s, d);
      var rest := CanDrain(ExecuteOn(s, d));
      schedule := [d] + rest;
      assert schedule[1..] == rest;
    }
  }

  lemma AllFreeAtRest(s: State)
    requires Inv(s) && forall c: nat :: c < |s.cores| ==> s.cores[c].todo == []
    ensures s.owner == map[]
  {
    forall c: nat | c < |s.cores| ensures Held(s, c) == {} {
      assert Disciplined(s.cores[c].todo, Held(s, c));
    }
    assert forall l :: l in s.owner ==> l in Held(s, s.owner[l]);
    assert s.owner.Keys == {};
  }

  ghost predicate IsRun(run: seq<State>) {
    && run != [] && Init(run[0])
    && forall i :: 0 <= i < |run| - 1 ==> exists c, a :: Enabled(run[i], c, a) && run[i + 1] == Next(run[i], c, a)
  }

  lemma InitInv(s: State)
    requires Init(s)
    ensures Inv(s)
  {
    forall c: nat | c < |s.cores| ensures Disciplined(s.cores[c].todo, Held(s, c)) && InterruptsSafe(s.cores[c]) {
      assert Held(s, c) == {};
    }
  }

  lemma {:induction false} RunInv(run: seq<State>, i: nat)
    requires IsRun(run) && i < |run|
    ensures Inv(run[i])
  {
    hide Inv, Enabled, Next, Init;
    if i == 0 {
      InitInv(run[0]);
    } else {
      RunInv(run, i - 1);
      var c, a :| Enabled(run[i - 1], c, a) && run[i] == Next(run[i - 1], c, a);
      StepInv(run[i - 1], c, a);
    }
  }

  lemma HoldsNothing(s: State, c: nat)
    requires Inv(s) && c < |s.cores|
    ensures s.cores[c].interrupts ==> Held(s, c) == {}
  {
    assert Disciplined(s.cores[c].todo, Held(s, c)) && InterruptsSafe(s.cores[c]);
  }

  /** In every run on any number of cores: a core that could be interrupted holds no lock, so `tick` never waits
      for its own core; and whenever a core waits for a lock, some core can go on, and all services under way can be
      brought to their end, with every lock free and the interrupts of all user cores on again. */
  lemma NeverDeadlocked(run: seq<State>, i: nat, c: nat) returns (d: nat, schedule: seq<nat>)
    requires IsRun(run) && i < |run| && c < |run[i].cores|
    ensures run[i].cores[c].interrupts ==> Held(run[i], c) == {}
    ensures run[i].cores[c].todo != [] ==> Runnable(run[i], d)
    ensures CanExecute(run[i], schedule)
    ensures var t := AfterSchedule(run[i], schedule);
            t.owner == map[] && forall e: nat :: e < |t.cores| ==> t.cores[e].todo == [] && Responsive(t.cores[e])
  {
    RunInv(run, i);
    HoldsNothing(run[i], c);
    hide *;
    d := 0;
    if run[i].cores[c].todo != [] { d := SomeCoreRuns(run[i], c); }
    schedule := CanDrain(run[i]);
  }

  /** In every run, no two cores are about to access the data of the same lock. */
  lemma NeverTogether(run: seq<State>, i: nat, c: nat, d: nat, l: Lock)
    requires IsRun(run) && i < |run| && c < |run[i].cores| && d < |run[i].cores|
    requires run[i].cores[c].todo != [] && run[i].cores[c].todo[0] == Use(l)
    requires run[i].cores[d].todo != [] && run[i].cores[d].todo[0] == Use(l)
    ensures c == d
  {
    RunInv(run, i);
    assert Disciplined(run[i].cores[c].todo, Held(run[i], c)) && Disciplined(run[i].cores[d].todo, Held(run[i], d));
    assert l in Held(run[i], c) && l in Held(run[i], d);
  }

  /** The locks that are held after these operations. */
  function HeldAfter(p: seq<Act>): set<Lock> {
    if p == [] then {} else
      var before := HeldAfter(p[..|p| - 1]);
      match p[|p| - 1]
      case Acquire(l) => before + {l}
      case Release(l) => before - {l}
      case _ => before
  }

  /** What a service accesses, in order, and under which locks. */
  function Accesses(p: seq<Act>): seq<(Lock, set<Lock>)> {
    if p == [] then [] else
      var before := Accesses(p[..|p| - 1]);
      match p[|p| - 1]
      case Use(l) => before + [(l, HeldAfter(p[..|p| - 1]))]
      case _ => before
  }

  const GRANT_ACTS :=
    [Acquire(Cdt), Use(Cdt), Acquire(Allocator), Use(Allocator), Release(Allocator), Acquire(Mapper), Acquire(Allocator),
     Use(Mapper), Use(Allocator), Release(Allocator), Release(Mapper), Release(Cdt)]

  lemma GrantIs()
    ensures GRANT == GRANT_ACTS
  {
  }

  lemma GrantHeldFirst(p: seq<Act>)
    requires |p| == 12 && p[0] == Acquire(Cdt) && p[1] == Use(Cdt) && p[2] == Acquire(Allocator) && p[3] == Use(Allocator)
    requires p[4] == Release(Allocator)
    ensures HeldAfter(p[..1]) == {Cdt} && HeldAfter(p[..3]) == {Cdt, Allocator} && HeldAfter(p[..5]) == {Cdt}
  {
    hide HeldAfter, Accesses;
    assert p[..0] == [];
    NothingHeld();
    PeelAt(p, 0);
    PeelAt(p, 1);
    PeelAt(p, 2);
    PeelAt(p, 3);
    PeelAt(p, 4);
  }

  lemma GrantHeldThen(p: seq<Act>)
    requires |p| == 12 && HeldAfter(p[..5]) == {Cdt} && p[5] == Acquire(Mapper) && p[6] == Acquire(Allocator)
    requires p[7] == Use(Mapper) && p[8] == Use(Allocator)
    ensures HeldAfter(p[..7]) == HeldAfter(p[..8]) == HeldAfter(p[..9]) == {Cdt, Mapper, Allocator}
  {
    hide HeldAfter, Accesses;
    PeelAt(p, 5);
    PeelAt(p, 6);
    PeelAt(p, 7);
    PeelAt(p, 8);
  }

  lemma GrantHeldLast(p: seq<Act>)
    requires |p| == 12 && HeldAfter(p[..9]) == {Cdt, Mapper, Allocator}
    requires p[9] == Release(Allocator) && p[10] == Release(Mapper) && p[11] == Release(Cdt)
    ensures HeldAfter(p[..12]) == {}
  {
    hide HeldAfter, Accesses;
    PeelAt(p, 9);
    PeelAt(p, 10);
    PeelAt(p, 11);
  }

  /** A grant checks the derivation tree, takes a frame and writes the page table, all under the tree's lock, and the page
      table is written under the allocator's lock too, because new tables come from there. */
  lemma GrantAccesses()
    ensures Accesses(GRANT) == [(Cdt, {Cdt}), (Allocator, {Cdt, Allocator}),
                                (Mapper, {Cdt, Mapper, Allocator}), (Allocator, {Cdt, Mapper, Allocator})]
    ensures HeldAfter(GRANT) == {} && Syscall(GRANT)
  {
    hide HeldAfter, Accesses, GRANT;
    var p := GRANT;
    GrantIs();
    GrantHeldFirst(p);
    GrantHeldThen(p);
    GrantHeldLast(p);
    NothingHeld();
    assert p[..0] == [] && p[..12] == p;
    UseAt(p, 0, 1);
    UseAt(p, 2, 3);
    UseAt(p, 4, 7);
    UseAt(p, 8, 8);
    QuietAt(p, 9, 12);
  }

  /** From `i` on the next access is the one at `k`. */
  lemma {:induction false} UseAt(p: seq<Act>, i: nat, k: nat)
    requires i <= k < |p| && p[k].Use? && forall j :: i <= j < k ==> !p[j].Use?
    ensures Accesses(p[..k + 1]) == Accesses(p[..i]) + [(p[k].lock, HeldAfter(p[..k]))]
  {
    QuietAt(p, i, k);
    PeelAt(p, k);
  }

  lemma {:induction false} QuietAt(p: seq<Act>, i: nat, k: nat)
    requires i <= k <= |p| && forall j :: i <= j < k ==> !p[j].Use?
    ensures Accesses(p[..k]) == Accesses(p[..i])
    decreases k
  {
    hide HeldAfter, Accesses;
    if i < k {
      QuietAt(p, i, k - 1);
      PeelAt(p, k - 1);
    }
  }

  lemma NothingHeld()
    ensures HeldAfter([]) == {} && Accesses([]) == []
  {
  }

  lemma PeelAt(p: seq<Act>, i: nat)
    requires i < |p|
    ensures HeldAfter(p[..i + 1]) ==
            match p[i]
            case Acquire(l) => HeldAfter(p[..i]) + {l}
            case Release(l) => HeldAfter(p[..i]) - {l}
            case _ => HeldAfter(p[..i])
    ensures Accesses(p[..i + 1]) ==
            match p[i] case Use(l) => Accesses(p[..i]) + [(l, HeldAfter(p[..i]))] case _ => Accesses(p[..i])
  {
    assert p[..i + 1][..i] == p[..i];
  }
}
