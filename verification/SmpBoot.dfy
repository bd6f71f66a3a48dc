/** Multiprocessor start-up: the boot processor wakes the application processors (APs) and waits for them, while
    each AP takes a logical id, initialises its hardware and reports. Every atomic operation is one step. */
module SmpBoot {
  import opened Collections

  const U32: nat := 0x1_0000_0000

  /** How far an AP got in `ap_main`. */
  datatype Stage = Parked | Awake | Numbered | Hardware | Features | Apic | Reported

  datatype Ap = Ap(stage: Stage, id: nat, tss: bool)

  datatype Boot = Waking(next: nat) | Waiting | Online

  /** `logical` and `ready` are the two shared counters; the boot processor is not among `aps`. */
  datatype State = State(aps: seq<Ap>, boot: Boot, logical: nat, ready: nat)

  datatype Step = Wake | EndWaking | Leave | TakeId(ap: nat) | InitHardware(ap: nat) | InitFeatures(ap: nat)
    | InitApic(ap: nat) | Report(ap: nat)

  predicate At(s: State, i: nat, stage: Stage) {
    i < |s.aps| && s.aps[i].stage == stage
  }

  predicate Enabled(s: State, a: Step) {
    match a
    case Wake => s.boot.Waking? && s.boot.next < |s.aps|
    case EndWaking => s.boot.Waking? && s.boot.next == |s.aps|
    case Leave => s.boot == Waiting && s.ready >= |s.aps|
    case TakeId(i) => At(s, i, Awake)
    case InitHardware(i) => At(s, i, Numbered)
    case InitFeatures(i) => At(s, i, Hardware)
    case InitApic(i) => At(s, i, Features)
    case Report(i) => At(s, i, Apic)
  }

  /** The id is truncated to 32 bits; the shared task state segment is loaded by the AP with id 1. */
  function Next(s: State, a: Step): State
    requires Enabled(s, a)
  {
    match a
    case Wake => s.(boot := Waking(s.boot.next + 1), aps := s.aps[s.boot.next := s.aps[s.boot.next].(stage := Awake)])
    case EndWaking => s.(boot := Waiting)
    case Leave => s.(boot := Online)
    case TakeId(i) => s.(aps := s.aps[i := s.aps[i].(stage := Numbered, id := s.logical % U32)], logical := s.logical + 1)
    case InitHardware(i) => s.(aps := s.aps[i := s.aps[i].(stage := Hardware, tss := s.aps[i].id == 1)])
    case InitFeatures(i) => s.(aps := s.aps[i := s.aps[i].(stage := Features)])
    case InitApic(i) => s.(aps := s.aps[i := s.aps[i].(stage := Apic)])
    case Report(i) => s.(aps := s.aps[i := s.aps[i].(stage := Reported)], ready := s.ready + 1)
  }

  ghost predicate Init(s: State) {
    && s.boot == Waking(0) && s.logical == 1 && s.ready == 0 && |s.aps| + 1 < U32
    && forall i :: 0 <= i < |s.aps| ==> s.aps[i] == Ap(Parked, 0, false)
  }

  predicate HasId(a: Ap) {
    a.stage != Parked && a.stage != Awake
  }

  function WithId(s: State): set<nat> {
    set i: nat | i < |s.aps| && HasId(s.aps[i])
  }

  function Done(s: State): set<nat> {
    set i: nat | i < |s.aps| && s.aps[i].stage == Reported
  }

  /** Some AP has id `k`. */
  ghost predicate Given(s: State, k: nat) {
    exists i: nat :: i < |s.aps| && HasId(s.aps[i]) && s.aps[i].id == k
  }

  ghost predicate DistinctIds(s: State) {
    forall i: nat, j: nat :: i < j < |s.aps| && HasId(s.aps[i]) && HasId(s.aps[j]) ==> s.aps[i].id != s.aps[j].id
  }

  ghost predicate Inv(s: State) {
    && |s.aps| + 1 < U32 && s.logical == 1 + |WithId(s)| && s.ready == |Done(s)|
    && DistinctIds(s)
    && (forall i: nat :: i < |s.aps| ==> ApInv(s.aps[i], s.logical))
    && (forall k: nat :: 1 <= k < s.logical ==> Given(s, k))
    && (s.boot.Waking? ==> s.boot.next <= |s.aps|)
    && (forall i: nat :: i < |s.aps| ==> (s.aps[i].stage == Parked <==> s.boot.Waking? && s.boot.next <= i))
    && (s.boot == Online ==> s.ready >= |s.aps|)
  }

  /** Ids are below the counter, and the task state segment was loaded exactly if the id is 1. */
  predicate ApInv(a: Ap, logical: nat) {
    && (HasId(a) ==> 1 <= a.id < logical)
    && a.tss == (HasId(a) && a.stage != Numbered && a.id == 1)
  }

  /** The numbers below `n`. */
  function Range(n: nat): (r: set<nat>)
    ensures |r| == n && forall i: nat :: i in r <==> i < n
  {
    if n == 0 then {} else Range(n - 1) + {n - 1}
  }

  lemma IdsFit(s: State)
    requires Inv(s)
    ensures |WithId(s)| <= |s.aps| && s.logical <= |s.aps| + 1 < U32
  {
    SubsetSize(WithId(s), Range(|s.aps|));
  }

  /** Every id that was given stays given. */
  ghost predicate KeepsIds(s: State, t: State) {
    |t.aps| == |s.aps| &&
    forall j: nat :: j < |s.aps| && HasId(s.aps[j]) ==> HasId(t.aps[j]) && t.aps[j].id == s.aps[j].id
  }

  lemma GivenKept(s: State, t: State, k: nat)
    requires Given(s, k) && KeepsIds(s, t)
    ensures Given(t, k)
  {
    var j: nat :| j < |s.aps| && HasId(s.aps[j]) && s.aps[j].id == k;
    assert HasId(t.aps[j]);
  }

  lemma TakeIdInv(s: State, i: nat)
    requires Inv(s) && Enabled(s, TakeId(i))
    ensures Inv(Next(s, TakeId(i)))
  {
    hide Given, DistinctIds;
    IdsFit(s);
    var t := Next(s, TakeId(i));
    assert t.aps == s.aps[i := s.aps[i].(stage := Numbered, id := s.logical)];
    NewIdIsDistinct(s, i);
    assert WithId(t) == WithId(s) + {i} && i !in WithId(s);
    assert Done(t) == Done(s);
    forall k: nat | 1 <= k < t.logical ensures Given(t, k) {
      if k == s.logical { GivenBy(t, i); } else { GivenKept(s, t, k); }
    }
  }

  lemma NewIdIsDistinct(s: State, i: nat)
    requires DistinctIds(s) && i < |s.aps| && !HasId(s.aps[i])
    requires forall j: nat :: j < |s.aps| ==> ApInv(s.aps[j], s.logical)
    ensures DistinctIds(s.(aps := s.aps[i := s.aps[i].(stage := Numbered, id := s.logical)], logical := s.logical + 1))
  {
  }

  lemma SameIdsDistinct(s: State, t: State)
    requires DistinctIds(s) && |t.aps| == |s.aps|
    requires forall j: nat :: j < |s.aps| ==> HasId(t.aps[j]) == HasId(s.aps[j]) && t.aps[j].id == s.aps[j].id
    ensures DistinctIds(t)
  {
  }

  lemma WakeApInv(s: State)
    requires Inv(s) && Enabled(s, Wake)
    ensures ApInv(s.aps[s.boot.next].(stage := Awake), s.logical)
  {
  }

  lemma GivenBy(s: State, i: nat)
    requires i < |s.aps| && HasId(s.aps[i])
    ensures Given(s, s.aps[i].id)
  {
  }

  /** A step of one AP that leaves its id, and the set of APs with an id, alone. */
  lemma ApStepInv(s: State, i: nat, ap: Ap, ready: nat)
    requires Inv(s) && i < |s.aps| && HasId(s.aps[i]) && HasId(ap) && ap.id == s.aps[i].id && ApInv(ap, s.logical)
    requires s.aps[i].stage != Reported && ready == s.ready + if ap.stage == Reported then 1 else 0
    ensures Inv(s.(aps := s.aps[i := ap], ready := ready))
  {
    hide Given, DistinctIds, ApInv, WithId, Done;
    var t := s.(aps := s.aps[i := ap], ready := ready);
    SameIdsDistinct(s, t);
    ApStepCounts(s, t, i, ap);
    forall k: nat | 1 <= k < t.logical ensures Given(t, k) { GivenKept(s, t, k); }
  }

  lemma ApStepCounts(s: State, t: State, i: nat, ap: Ap)
    requires i < |s.aps| && HasId(s.aps[i]) && HasId(ap) && s.aps[i].stage != Reported && t.aps == s.aps[i := ap]
    ensures WithId(t) == WithId(s)
    ensures |Done(t)| == |Done(s)| + if ap.stage == Reported then 1 else 0
  {
    assert Done(t) == if ap.stage == Reported then Done(s) + {i} else Done(s);
  }

  lemma BootStepInv(s: State, a: Step)
    requires Inv(s) && Enabled(s, a) && (a == Wake || a == EndWaking || a == Leave)
    ensures Inv(Next(s, a))
  {
    hide Given, DistinctIds, ApInv;
    var t := Next(s, a);
    SameIdsDistinct(s, t);
    if a == Wake { WakeApInv(s); }
    assert WithId(t) == WithId(s) && Done(t) == Done(s);
    forall k: nat | 1 <= k < t.logical ensures Given(t, k) { GivenKept(s, t, k); }
  }

  lemma StepInv(s: State, a: Step)
    requires Inv(s) && Enabled(s, a)
    ensures Inv(Next(s, a))
  {
    hide Inv;
    match a
    case TakeId(i) => TakeIdInv(s, i);
    case InitHardware(i) => OneAp(s, i); ApStepInv(s, i, Next(s, a).aps[i], s.ready);
    case InitFeatures(i) => OneAp(s, i); ApStepInv(s, i, Next(s, a).aps[i], s.ready);
    case InitApic(i) => OneAp(s, i); ApStepInv(s, i, Next(s, a).aps[i], s.ready);
    case Report(i) => OneAp(s, i); ApStepInv(s, i, Next(s, a).aps[i], s.ready + 1);
    case Wake => BootStepInv(s, a);
    case EndWaking => BootStepInv(s, a);
    case Leave => BootStepInv(s, a);
  }

  lemma OneAp(s: State, i: nat)
    requires Inv(s) && i < |s.aps|
    ensures ApInv(s.aps[i], s.logical)
  {
  }

  /** `steps[i]` leads from `run[i]` to `run[i + 1]`. */
  ghost predicate IsRun(run: seq<State>, steps: seq<Step>) {
    && |run| == |steps| + 1 && Init(run[0])
    && forall i: nat :: i < |steps| ==> Enabled(run[i], steps[i]) && run[i + 1] == Next(run[i], steps[i])
  }

  predicate Concerns(a: Step, i: nat) {
    !a.Wake? && !a.EndWaking? && !a.Leave? && a.ap == i
  }

  /** The steps of AP `i` among `steps`. */
  function StepsOf(steps: seq<Step>, i: nat): seq<Step> {
    if steps == [] then [] else
      var rest, a := StepsOf(steps[..|steps| - 1], i), steps[|steps| - 1];
      if Concerns(a, i) then rest + [a] else rest
  }

  /** What an AP has to do, in order. */
  function Duties(i: nat): seq<Step> {
    [TakeId(i), InitHardware(i), InitFeatures(i), InitApic(i), Report(i)]
  }

  function Fulfilled(stage: Stage): (n: nat)
    ensures n <= 5
  {
    match stage
    case Parked => 0
    case Awake => 0
    case Numbered => 1
    case Hardware => 2
    case Features => 3
    case Apic => 4
    case Reported => 5
  }

  /** A step of AP `i` is its next duty; no other step moves it. */
  lemma StepIsDuty(s: State, a: Step, i: nat)
    requires Enabled(s, a) && i < |s.aps|
    ensures |Next(s, a).aps| == |s.aps|
    ensures var n := Fulfilled(s.aps[i].stage);
            if Concerns(a, i)
            then n < 5 && a == Duties(i)[n] && Fulfilled(Next(s, a).aps[i].stage) == n + 1
            else a == Wake || Fulfilled(Next(s, a).aps[i].stage) == n
  {
  }

  lemma NothingDone(s: State, i: nat)
    requires Init(s) && i < |s.aps|
    ensures Fulfilled(s.aps[i].stage) == 0
  {
  }

  /** The AP that is woken has done nothing yet. */
  lemma WakeIsFirst(s: State, i: nat)
    requires Inv(s) && i < |s.aps|
    ensures Enabled(s, Wake) ==> Fulfilled(Next(s, Wake).aps[i].stage) == Fulfilled(s.aps[i].stage)
  {
  }

  /** At every moment an AP has done its duties up to its stage, each once, in order, and nothing else. */
  lemma {:induction false} DutiesInOrder(run: seq<State>, steps: seq<Step>, k: nat, i: nat)
    requires IsRun(run, steps) && k < |run| && i < |run[0].aps|
    ensures |run[k].aps| == |run[0].aps|
    ensures StepsOf(steps[..k], i) == Duties(i)[..Fulfilled(run[k].aps[i].stage)]
  {
    hide Inv, Init, Enabled, Next, Fulfilled, Concerns;
    if k == 0 {
      NothingDone(run[0], i);
    } else {
      DutiesInOrder(run, steps, k - 1, i);
      var a := steps[k - 1];
      assert steps[..k][..k - 1] == steps[..k - 1] && run[k] == Next(run[k - 1], a);
      RunInv(run, steps, k - 1);
      StepIsDuty(run[k - 1], a, i);
      WakeIsFirst(run[k - 1], i);
    }
  }

  /** What is left to do at an AP, counting its wake-up. */
  function Left(a: Ap): nat {
    if a.stage == Parked then 6 else 5 - Fulfilled(a.stage)
  }

  function TotalLeft(aps: seq<Ap>): nat {
    if aps == [] then 0 else Left(aps[0]) + TotalLeft(aps[1..])
  }

  lemma {:induction false} TotalLeftDrops(aps: seq<Ap>, i: nat, a: Ap)
    requires i < |aps| && Left(a) < Left(aps[i])
    ensures TotalLeft(aps[i := a]) < TotalLeft(aps)
  {
    if i == 0 {
      assert aps[0 := a][1..] == aps[1..];
    } else {
      TotalLeftDrops(aps[1..], i - 1, a);
      assert aps[i := a][1..] == aps[1..][i - 1 := a];
    }
  }

  function BootLeft(boot: Boot, n: nat): nat {
    match boot
    case Waking(next) => if next <= n then n - next + 2 else 0
    case Waiting => 1
    case Online => 0
  }

  function Work(s: State): nat {
    TotalLeft(s.aps) + BootLeft(s.boot, |s.aps|)
  }

  /** An AP that is awake and has not reported can take a step. */
  lemma ApCanStep(s: State, i: nat) returns (a: Step)
    requires Inv(s) && i < |s.aps| && s.aps[i].stage != Parked && s.aps[i].stage != Reported
    ensures Enabled(s, a) && Work(Next(s, a)) < Work(s)
  {
    a := Duties(i)[Fulfilled(s.aps[i].stage)];
    assert Enabled(s, a);
    TotalLeftDrops(s.aps, i, Next(s, a).aps[i]);
  }

  /** Until the boot processor is through, somebody can take a step that brings the end nearer. */
  lemma SomeoneCanStep(s: State) returns (a: Step)
    requires Inv(s) && s.boot != Online
    ensures Enabled(s, a) && Work(Next(s, a)) < Work(s)
  {
    if s.boot.Waking? && s.boot.next < |s.aps| {
      a := Wake;
      TotalLeftDrops(s.aps, s.boot.next, Next(s, a).aps[s.boot.next]);
    } else if s.boot.Waking? {
      a := EndWaking;
    } else if s.ready >= |s.aps| {
      a := Leave;
    } else {
      assert Done(s) != Range(|s.aps|);
      var i: nat :| i in Range(|s.aps|) && i !in Done(s);
      a := ApCanStep(s, i);
    }
  }

  /** The start-up cannot get stuck: every run can be continued until the boot processor has left its wait. */
  lemma {:induction false} BootCompletes(run: seq<State>, steps: seq<Step>) returns (longer: seq<State>, more: seq<Step>)
    requires IsRun(run, steps)
    ensures IsRun(longer, more) && run <= longer && steps <= more && longer[|more|].boot == Online
    decreases Work(run[|steps|])
  {
    var s := run[|steps|];
    if s.boot == Online {
      return run, steps;
    }
    RunInv(run, steps, |steps|);
    var a := SomeoneCanStep(s);
    longer, more := BootCompletes(run + [Next(s, a)], steps + [a]);
  }

  lemma InitInv(s: State)
    requires Init(s)
    ensures Inv(s)
  {
    assert WithId(s) == {} && Done(s) == {};
  }

  lemma {:induction false} RunInv(run: seq<State>, steps: seq<Step>, i: nat)
    requires IsRun(run, steps) && i < |run|
    ensures Inv(run[i])
  {
    hide Inv, Enabled, Next, Init;
    if i == 0 {
      InitInv(run[0]);
    } else {
      RunInv(run, steps, i - 1);
      StepInv(run[i - 1], steps[i - 1]);
    }
  }

  /** The AP with id 1 has loaded the shared task state segment, and no other has. */
  ghost predicate OneTss(aps: seq<Ap>) {
    exists j: nat :: j < |aps| && aps[j].tss && forall m: nat :: m < |aps| && aps[m].tss ==> m == j
  }

  /** In every interleaving the ids handed out are distinct; and once the boot processor has left its wait, every AP
      has taken its id and initialised its hardware, its processor features and its interrupt controller, each once, in
      this order and before its report, the ids are exactly 1 to n - 1, and exactly one AP has loaded the shared task
      state segment if there is any AP at all. */
  lemma BootBarrier(run: seq<State>, steps: seq<Step>, i: nat)
    requires IsRun(run, steps) && i < |run|
    ensures DistinctIds(run[i])
    ensures run[i].boot == Online ==>
      var aps := run[i].aps;
      && |aps| == |run[0].aps|
      && (forall j: nat :: j < |aps| ==>
            StepsOf(steps[..i], j) == [TakeId(j), InitHardware(j), InitFeatures(j), InitApic(j), Report(j)])
      && (forall j: nat :: j < |aps| ==> 1 <= aps[j].id <= |aps|)
      && (forall k: nat :: 1 <= k <= |aps| ==> Given(run[i], k))
      && (|aps| >= 1 ==> OneTss(aps))
  {
    RunInv(run, steps, i);
    var s := run[i];
    if s.boot == Online {
      AllReported(s);
      if |run[0].aps| > 0 { DutiesInOrder(run, steps, i, 0); } else { SameAps(run, steps, i); }
      forall j: nat | j < |s.aps| ensures StepsOf(steps[..i], j) == Duties(j) {
        DutiesInOrder(run, steps, i, j);
      }
      if |s.aps| >= 1 { TssOnce(s); }
    }
  }

  lemma {:induction false} SameAps(run: seq<State>, steps: seq<Step>, i: nat)
    requires IsRun(run, steps) && i < |run|
    ensures |run[i].aps| == |run[0].aps|
  {
    if i > 0 {
      SameAps(run, steps, i - 1);
      assert run[i] == Next(run[i - 1], steps[i - 1]);
    }
  }

  lemma AllReported(s: State)
    requires Inv(s) && s.boot == Online
    ensures s.logical == |s.aps| + 1
    ensures forall j: nat :: j < |s.aps| ==> s.aps[j].stage == Reported && 1 <= s.aps[j].id <= |s.aps|
  {
    IdsFit(s);
    SubsetSize(Done(s), Range(|s.aps|));
    forall j: nat | j < |s.aps| ensures s.aps[j].stage == Reported { assert j in Done(s); }
    assert Done(s) <= WithId(s);
    SubsetSize(Done(s), WithId(s));
  }

  lemma TssOnce(s: State)
    requires Inv(s) && s.logical > 1 && forall j: nat :: j < |s.aps| ==> s.aps[j].stage == Reported
    ensures OneTss(s.aps)
  {
    assert Given(s, 1);
    var j: nat :| j < |s.aps| && HasId(s.aps[j]) && s.aps[j].id == 1;
    assert s.aps[j].tss;
    forall m: nat | m < |s.aps| && s.aps[m].tss ensures m == j {
      assert s.aps[m].id == 1;
    }
  }
}
