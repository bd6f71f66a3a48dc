/** Core 0's supervisor loop: MONITOR the mailbox, sleep with MWAIT if it is empty, then swap it empty. */
module Supervisor {
  import opened Mailbox

  datatype Pc = AtMonitor | AtLoad | AtMwait | Asleep | AtSwap | Handling

  /** `armed` is the monitor hardware: set by MONITOR, cleared by any store to the mailbox's cache line and by
      other events; MWAIT sleeps only while it is set, and a sleeping core wakes when it is cleared. */
  datatype State = State(slot: Slot, pc: Pc, armed: bool)

  datatype Step = Own | StoreByOther(v: bv64) | Disarm

  /** Core 0's next instruction; asleep, it waits. */
  function OwnNext(s: State): State {
    match s.pc
    case AtMonitor => s.(armed := true, pc := AtLoad)
    case AtLoad => s.(pc := if s.slot.value == 0 then AtMwait else AtSwap)
    case AtMwait => s.(pc := if s.armed then Asleep else AtSwap)
    case Asleep => s
    case AtSwap => State(s.slot.Swap(), Handling, false)
    case Handling => s.(pc := AtMonitor)
  }

  /** A clearing of the monitor, which also ends a sleep. */
  function Cleared(s: State): State {
    s.(armed := false, pc := if s.pc == Asleep then AtSwap else s.pc)
  }

  function Next(s: State, a: Step): State {
    match a
    case Own => OwnNext(s)
    case StoreByOther(v) => Cleared(s.(slot := s.slot.Store(v)))
    case Disarm => Cleared(s)
  }

  const START := State(EMPTY, AtMonitor, false)

  ghost predicate Inv(s: State) {
    InOrder(s.slot) && (s.pc == Asleep || (s.pc == AtMwait && s.armed) ==> s.slot.value == 0)
  }

  lemma StepInv(s: State, a: Step)
    requires Inv(s)
    ensures Inv(Next(s, a))
  {
    match a
    case Own => if s.pc == AtSwap { SwapInOrder(s.slot); }
    case StoreByOther(v) => StoreInOrder(s.slot, v);
    case Disarm =>
  }

  function After(steps: seq<Step>): State {
    if steps == [] then START else Next(After(steps[..|steps| - 1]), steps[|steps| - 1])
  }

  /** For any interleaving of core 0's instructions with stores by other cores and interrupts: core 0 never sleeps
      on a non-empty mailbox, and the messages it takes are stored ones, in order, none twice. */
  lemma {:induction false} NoLostWakeup(steps: seq<Step>)
    ensures Inv(After(steps))
    ensures After(steps).pc == Asleep ==> After(steps).slot.value == 0
  {
    if steps != [] {
      NoLostWakeup(steps[..|steps| - 1]);
      StepInv(After(steps[..|steps| - 1]), steps[|steps| - 1]);
    }
  }

  /** How many instructions core 0 is away from having swapped the mailbox. */
  function Distance(pc: Pc): nat {
    match pc
    case AtSwap => 1
    case AtMwait => 2
    case AtLoad => 2
    case AtMonitor => 3
    case Handling => 4
    case Asleep => 0
  }

  function RunFrom(s: State, steps: seq<Step>): State
    decreases |steps|
  {
    if steps == [] then s else RunFrom(Next(s, steps[0]), steps[1..])
  }

  /** How many of the steps are core 0's own. */
  function Owns(steps: seq<Step>): nat {
    if steps == [] then 0 else (if steps[0].Own? then 1 else 0) + Owns(steps[1..])
  }

  /** Nobody empties the mailbox by storing zero. */
  predicate NoZeroStores(steps: seq<Step>) {
    forall i :: 0 <= i < |steps| ==> steps[i] != StoreByOther(0)
  }

  lemma NextReceived(s: State, a: Step)
    ensures s.slot.received <= Next(s, a).slot.received
  {
  }

  /** What was received stays received. */
  lemma {:induction false} ReceivedGrows(s: State, steps: seq<Step>)
    ensures s.slot.received <= RunFrom(s, steps).slot.received
    decreases |steps|
  {
    hide Next;
    if steps != [] {
      NextReceived(s, steps[0]);
      ReceivedGrows(Next(s, steps[0]), steps[1..]);
    }
  }

  lemma StepTowardsSwap(s: State, a: Step)
    requires Inv(s) && s.slot.value != 0 && a != StoreByOther(0) && !(a.Own? && s.pc == AtSwap)
    ensures var t := Next(s, a);
            && Inv(t) && t.slot.value != 0 && t.slot.received == s.slot.received
            && Distance(t.pc) == Distance(s.pc) - if a.Own? then 1 else 0
  {
    hide InOrder;
    StepInv(s, a);
  }

  /** A message in the mailbox: core 0 is not asleep, and it has received a message once it has made `Distance` of its own
      instructions, at most four, in any interleaving with interrupts and with stores other than of zero. */
  lemma {:induction false} MessageIsTaken(s: State, steps: seq<Step>)
    requires Inv(s) && s.slot.value != 0 && NoZeroStores(steps) && Owns(steps) >= Distance(s.pc)
    ensures s.pc != Asleep && 1 <= Distance(s.pc) <= 4
    ensures s.slot.received < RunFrom(s, steps).slot.received
    decreases |steps|
  {
    hide InOrder, Next;
    var t := Next(s, steps[0]);
    if steps[0].Own? && s.pc == AtSwap {
      SwapReceives(s);
      ReceivedGrows(t, steps[1..]);
    } else {
      StepTowardsSwap(s, steps[0]);
      MessageIsTaken(t, steps[1..]);
    }
  }

  lemma SwapReceives(s: State)
    requires Inv(s) && s.slot.value != 0 && s.pc == AtSwap
    ensures Next(s, Own).slot.received == s.slot.received + [s.slot.value]
  {
    SwapInOrder(s.slot);
  }

  /** How many instructions core 0 is away from sleep while nothing comes in. */
  function ToSleep(s: State): nat {
    match s.pc
    case Asleep => 0
    case AtMwait => if s.armed then 1 else 6
    case AtLoad => if s.armed then 2 else 7
    case AtMonitor => 3
    case Handling => 4
    case AtSwap => 5
  }

  function OwnSteps(n: nat): seq<Step> { seq(n, _ => Own) }

  /** With an empty mailbox and nothing coming in, core 0 is asleep after seven of its own instructions, and stays asleep. */
  lemma {:induction false} IdleSleeps(s: State, n: nat)
    requires s.slot.value == 0 && n >= ToSleep(s)
    ensures RunFrom(s, OwnSteps(n)).pc == Asleep && ToSleep(s) <= 7
    decreases n
  {
    if n > 0 {
      assert OwnSteps(n)[1..] == OwnSteps(n - 1);
      IdleSleeps(OwnNext(s), n - 1);
    }
  }
}
