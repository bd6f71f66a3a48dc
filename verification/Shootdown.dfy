/** TLB shootdowns: one initiator broadcasts an address and waits for acknowledgements, while the handlers of
    the targeted cores run concurrently. Every atomic operation is one step. */
module Shootdown {
  import opened Collections
  import opened Words

  /** Where a core stands in `tlb_shootdown_handler`. */
  datatype Phase = Idle | Entered | HasAddr(v: nat) | Flushed | Acked

  /** Where the initiator stands in `broadcast_tlb_shootdown`. */
  datatype Pc = Ready | AddrStored | Sending(next: nat, expected: nat) | Waiting(expected: nat)

  datatype Request = Request(vaddr: nat, mask: nat)

  datatype Flush = Flush(core: nat, addr: nat)

  /** `addr` and `ack` are the shared atomics; `pending` are the cores with an undelivered interrupt. `rounds`
      are the shootdowns begun so far, `done` the flushes of each finished one, `flushes` those since the
      last one began. */
  datatype State = State(
    addr: nat, ack: nat, pc: Pc, phase: seq<Phase>, pending: set<nat>,
    rounds: seq<Request>, done: seq<seq<Flush>>, flushes: seq<Flush>)

  predicate Targeted(mask: nat, core: nat) {
    1 <= core < 4 && And(mask, Pow2(core)) != 0
  }

  /** The targeted cores with a number below `n`. */
  function TargetsBelow(mask: nat, n: nat): set<nat> {
    set c | 1 <= c < n && c < 4 && Targeted(mask, c)
  }

  ghost predicate Init(s: State) {
    s.pc == Ready && 4 <= |s.phase| && (forall c :: 0 <= c < |s.phase| ==> s.phase[c] == Idle)
    && s.pending == {} && s.rounds == [] && s.done == [] && s.flushes == []
  }

  datatype Action =
    | Begin(req: Request) | ClearAck | Send | EndSend | Leave
    | Deliver(core: nat) | LoadAddr(core: nat) | DoFlush(core: nat) | Acknowledge(core: nat) | EndOfInterrupt(core: nat)

  predicate Enabled(s: State, a: Action) {
    match a
    case Begin(_) => s.pc == Ready
    case ClearAck => s.pc == AddrStored
    case Send => s.pc.Sending? && s.pc.next < 4 && s.rounds != []
    case EndSend => s.pc.Sending? && s.pc.next == 4
    case Leave => s.pc.Waiting? && s.ack >= s.pc.expected
    case Deliver(c) => c < |s.phase| && c in s.pending && s.phase[c] == Idle
    case LoadAddr(c) => c < |s.phase| && s.phase[c] == Entered
    case DoFlush(c) => c < |s.phase| && s.phase[c].HasAddr?
    case Acknowledge(c) => c < |s.phase| && s.phase[c] == Flushed
    case EndOfInterrupt(c) => c < |s.phase| && s.phase[c] == Acked
  }

  function Next(s: State, a: Action): State
    requires Enabled(s, a)
  {
    match a
    case Begin(req) => s.(addr := req.vaddr, pc := AddrStored, rounds := s.rounds + [req], flushes := [])
    case ClearAck => s.(ack := 0, pc := Sending(1, 0))
    case Send =>
      var n := s.pc.next;
      if Targeted(s.rounds[|s.rounds| - 1].mask, n)
      then s.(pc := Sending(n + 1, s.pc.expected + 1), pending := s.pending + {n})
      else s.(pc := Sending(n + 1, s.pc.expected))
    case EndSend => s.(pc := Waiting(s.pc.expected))
    case Leave => s.(pc := Ready, done := s.done + [s.flushes])
    case Deliver(c) => s.(phase := s.phase[c := Entered], pending := s.pending - {c})
    case LoadAddr(c) => s.(phase := s.phase[c := HasAddr(s.addr)])
    case DoFlush(c) => s.(phase := s.phase[c := Flushed], flushes := s.flushes + [Flush(c, s.phase[c].v)])
    case Acknowledge(c) => s.(phase := s.phase[c := Acked], ack := s.ack + 1)
    case EndOfInterrupt(c) => s.(phase := s.phase[c := Idle])
  }

  /** The flushes are exactly one per core of `cores`, all of address `v`. */
  ghost predicate ExactlyOnce(flushes: seq<Flush>, cores: set<nat>, v: nat) {
    && (forall i :: 0 <= i < |flushes| ==> flushes[i].addr == v && flushes[i].core in cores)
    && (forall i, j :: 0 <= i < j < |flushes| ==> flushes[i].core != flushes[j].core)
    && (forall c :: c in cores ==> Flush(c, v) in flushes)
  }

  /** The handler of `c` neither runs before its acknowledgement nor is about to run. */
  predicate Quiet(s: State, c: nat) {
    c !in s.pending && (c < |s.phase| ==> s.phase[c] == Idle || s.phase[c] == Acked)
  }

  /** The cores an interrupt was sent to in this round. */
  function Sent(s: State): set<nat> {
    if s.rounds == [] then {} else
      var mask := s.rounds[|s.rounds| - 1].mask;
      match s.pc
      case Sending(n, _) => TargetsBelow(mask, n)
      case Waiting(_) => TargetsBelow(mask, 4)
      case _ => {}
  }

  function Acknowledged(s: State): set<nat> {
    set c | c in Sent(s) && Quiet(s, c)
  }

  function HaveFlushed(s: State): set<nat> {
    set c | c in Sent(s) && c < |s.phase| && (Quiet(s, c) || (c !in s.pending && s.phase[c] == Flushed))
  }

  ghost predicate Finished(s: State) {
    |s.done| <= |s.rounds| && forall r :: 0 <= r < |s.done| ==>
      ExactlyOnce(s.done[r], TargetsBelow(s.rounds[r].mask, 4), s.rounds[r].vaddr)
  }

  ghost predicate Inv(s: State) {
    && 4 <= |s.phase| && Finished(s)
    && |s.rounds| == |s.done| + (if s.pc == Ready then 0 else 1)
    && (forall c: nat :: c !in Sent(s) ==> Quiet(s, c))
    && (forall c: nat :: c in s.pending && c < |s.phase| ==> s.phase[c] == Idle || s.phase[c] == Acked)
    && (s.pc.Sending? || s.pc.Waiting? ==>
          var v := s.rounds[|s.rounds| - 1].vaddr;
          && s.addr == v && s.ack == |Acknowledged(s)| && s.pc.expected == |Sent(s)|
          && (forall c: nat :: c < |s.phase| && s.phase[c].HasAddr? ==> s.phase[c].v == v)
          && ExactlyOnce(s.flushes, HaveFlushed(s), v))
    && (s.pc.Sending? ==> 1 <= s.pc.next <= 4)
    && (s.pc == AddrStored ==> s.flushes == [] && s.addr == s.rounds[|s.rounds| - 1].vaddr)
  }

  lemma InitInv(s: State)
    requires Init(s)
    ensures Inv(s)
  {
  }

  lemma SameFinished(s: State, t: State)
    requires Finished(s) && t.done == s.done && t.rounds == s.rounds
    ensures Finished(t)
  {
  }

  lemma BeginInv(s: State, req: Request)
    requires Inv(s) && Enabled(s, Begin(req))
    ensures Inv(Next(s, Begin(req)))
  {
    var t := Next(s, Begin(req));
    assert Sent(s) == {} && Sent(t) == {};
    forall c: nat ensures Quiet(t, c) { assert Quiet(s, c); }
    assert forall r :: 0 <= r < |s.done| ==> t.rounds[r] == s.rounds[r];
  }

  lemma ClearAckInv(s: State)
    requires Inv(s) && Enabled(s, ClearAck)
    ensures Inv(Next(s, ClearAck))
  {
    hide Finished, And, Pow2, Targeted;
    var t := Next(s, ClearAck);
    assert Finished(t) by { SameFinished(s, t); }
    assert Sent(s) == {} && Sent(t) == {};
    forall c: nat ensures Quiet(t, c) { assert Quiet(s, c); }
    assert Acknowledged(t) == {} && HaveFlushed(t) == {};
    forall c: nat | c < |t.phase| ensures !t.phase[c].HasAddr? { assert Quiet(t, c); }
  }

  /** The interrupt goes to a core that was quiet until now. */
  lemma SendInv(s: State)
    requires Inv(s) && Enabled(s, Send)
    ensures Inv(Next(s, Send))
  {
    hide Finished, ExactlyOnce, And, Pow2, Targeted, TargetsBelow, Sent, Acknowledged, HaveFlushed;
    var t := Next(s, Send);
    assert Finished(t) by { SameFinished(s, t); }
    SentGrows(s);
    SendSets(s);
  }

  lemma SendSets(s: State)
    requires Inv(s) && Enabled(s, Send)
    ensures var t := Next(s, Send);
            && Acknowledged(t) == Acknowledged(s) && HaveFlushed(t) == HaveFlushed(s)
            && forall c: nat :: c != s.pc.next ==> (Quiet(t, c) <==> Quiet(s, c))
  {
    hide Finished, ExactlyOnce, And, Pow2, Targeted, TargetsBelow, Sent;
    SentGrows(s);
    var t, n := Next(s, Send), s.pc.next;
    assert forall c: nat :: c != n ==> (Quiet(t, c) <==> Quiet(s, c));
  }

  lemma SentGrows(s: State)
    requires Inv(s) && Enabled(s, Send)
    ensures s.pc.next !in Sent(s) && Quiet(s, s.pc.next)
    ensures Sent(Next(s, Send)) ==
            if Targeted(s.rounds[|s.rounds| - 1].mask, s.pc.next) then Sent(s) + {s.pc.next} else Sent(s)
  {
    hide Finished, ExactlyOnce, And, Pow2, HaveFlushed, Acknowledged, Quiet;
  }

  lemma EndSendInv(s: State)
    requires Inv(s) && Enabled(s, EndSend)
    ensures Inv(Next(s, EndSend))
  {
    var t := Next(s, EndSend);
    assert Sent(t) == Sent(s) && Acknowledged(t) == Acknowledged(s) && HaveFlushed(t) == HaveFlushed(s);
  }

  /** When the wait ends, every core that was interrupted has acknowledged, and so has flushed. */
  lemma WaitIsOver(s: State)
    requires Inv(s) && Enabled(s, Leave)
    ensures Acknowledged(s) == Sent(s) == HaveFlushed(s)
  {
    SubsetSize(Acknowledged(s), Sent(s));
  }

  lemma LeaveInv(s: State)
    requires Inv(s) && Enabled(s, Leave)
    ensures Inv(Next(s, Leave))
  {
    var t := Next(s, Leave);
    WaitIsOver(s);
    assert Sent(t) == {};
    forall c: nat ensures Quiet(t, c) {
      if c in Sent(s) { assert c in Acknowledged(s); }
      assert Quiet(s, c);
    }
  }

  lemma HandlerInv(s: State, a: Action, c: nat)
    requires Inv(s) && Enabled(s, a)
    requires a == Deliver(c) || a == LoadAddr(c) || a == EndOfInterrupt(c)
    ensures Inv(Next(s, a))
  {
    hide Finished, ExactlyOnce, And, Pow2, Targeted, TargetsBelow;
    var t := Next(s, a);
    assert Finished(t) by { SameFinished(s, t); }
    assert Sent(t) == Sent(s);
    assert forall d: nat :: Quiet(t, d) <==> Quiet(s, d);
    assert Acknowledged(t) == Acknowledged(s) && HaveFlushed(t) == HaveFlushed(s);
  }

  lemma FlushInv(s: State, c: nat)
    requires Inv(s) && Enabled(s, DoFlush(c))
    ensures Inv(Next(s, DoFlush(c)))
  {
    hide Finished, ExactlyOnce, And, Pow2, Targeted, TargetsBelow;
    var t := Next(s, DoFlush(c));
    assert Finished(t) by { SameFinished(s, t); }
    assert c in Sent(s) && Sent(t) == Sent(s);
    assert forall d: nat :: Quiet(t, d) <==> Quiet(s, d);
    assert Acknowledged(t) == Acknowledged(s);
    assert HaveFlushed(t) == HaveFlushed(s) + {c} && c !in HaveFlushed(s);
    assert t.flushes == s.flushes + [Flush(c, s.addr)];
    OneMoreFlush(s.flushes, HaveFlushed(s), s.addr, c);
  }

  lemma OneMoreFlush(flushes: seq<Flush>, cores: set<nat>, v: nat, c: nat)
    requires ExactlyOnce(flushes, cores, v) && c !in cores
    ensures ExactlyOnce(flushes + [Flush(c, v)], cores + {c}, v)
  {
    var more := flushes + [Flush(c, v)];
    assert more[|flushes|] == Flush(c, v);
    forall d | d in cores + {c} ensures Flush(d, v) in more {
      if d in cores { assert Flush(d, v) in flushes; }
    }
  }

  lemma AcknowledgeInv(s: State, c: nat)
    requires Inv(s) && Enabled(s, Acknowledge(c))
    ensures Inv(Next(s, Acknowledge(c)))
  {
    hide Finished, ExactlyOnce, And, Pow2, Targeted, TargetsBelow, Acknowledged, HaveFlushed;
    var t := Next(s, Acknowledge(c));
    assert Finished(t) by { SameFinished(s, t); }
    AcknowledgeSets(s, c);
  }

  lemma AcknowledgeSets(s: State, c: nat)
    requires Inv(s) && Enabled(s, Acknowledge(c))
    ensures var t := Next(s, Acknowledge(c));
            && c in Sent(s) && Sent(t) == Sent(s) && HaveFlushed(t) == HaveFlushed(s)
            && Acknowledged(t) == Acknowledged(s) + {c} && c !in Acknowledged(s)
  {
    hide Finished, ExactlyOnce, And, Pow2, Targeted, TargetsBelow;
  }

  lemma StepInv(s: State, a: Action)
    requires Inv(s) && Enabled(s, a)
    ensures Inv(Next(s, a))
  {
    hide *;
    match a
    case Begin(req) => BeginInv(s, req);
    case ClearAck => ClearAckInv(s);
    case Send => SendInv(s);
    case EndSend => EndSendInv(s);
    case Leave => LeaveInv(s);
    case Deliver(c) => HandlerInv(s, a, c);
    case LoadAddr(c) => HandlerInv(s, a, c);
    case DoFlush(c) => FlushInv(s, c);
    case Acknowledge(c) => AcknowledgeInv(s, c);
    case EndOfInterrupt(c) => HandlerInv(s, a, c);
  }

  /** A run: `steps[i]` is enabled in `run[i]` and leads to `run[i + 1]`, in any interleaving. */
  ghost predicate IsRun(run: seq<State>, steps: seq<Action>) {
    && |run| == |steps| + 1 && Init(run[0])
    && forall i: nat :: i < |steps| ==> Enabled(run[i], steps[i]) && run[i + 1] == Next(run[i], steps[i])
  }

  lemma {:induction false} RunInv(run: seq<State>, steps: seq<Action>, i: nat)
    requires IsRun(run, steps) && i < |run|
    ensures Inv(run[i])
  {
    hide Inv, Enabled, Next, Init;
    if i == 0 {
      InitInv(run[0]);
    } else {
      RunInv(run, steps, i - 1);
      StepInv(run[i - 1], steps[i - 1]);
    }
  }

  /** The shootdowns that were begun. */
  function Begun(steps: seq<Action>): seq<Request> {
    if steps == [] then [] else
      Begun(steps[..|steps| - 1]) + if steps[|steps| - 1].Begin? then [steps[|steps| - 1].req] else []
  }

  lemma {:induction false} RoundsAreBegun(run: seq<State>, steps: seq<Action>, i: nat)
    requires IsRun(run, steps) && i < |run|
    ensures run[i].rounds == Begun(steps[..i])
  {
    if i > 0 {
      RoundsAreBegun(run, steps, i - 1);
      assert steps[..i][..i - 1] == steps[..i - 1] && run[i] == Next(run[i - 1], steps[i - 1]);
    }
  }

  /** The cores 1 to 3 whose bit is set in the mask. */
  function Cores(mask: nat): set<nat> {
    set c | 1 <= c < 4 && mask / Pow2(c) % 2 == 1
  }

  lemma TargetsAreCores(mask: nat)
    ensures TargetsBelow(mask, 4) == Cores(mask)
  {
    hide And, Pow2;
    forall c: nat | c < 4 ensures And(mask, Pow2(c)) != 0 <==> mask / Pow2(c) % 2 == 1 { AndBit(mask, c); }
  }

  /** In every run with any number of shootdowns: each finished one flushed its own address exactly once on each core
      whose bit is set in its mask, and on no other core; and whenever the initiator is not in a shootdown, all that were
      begun are finished and no handler is left that could still flush or acknowledge. */
  lemma ShootdownSafety(run: seq<State>, steps: seq<Action>, i: nat)
    requires IsRun(run, steps) && i < |run|
    ensures var s, begun := run[i], Begun(steps[..i]);
            && |s.done| <= |begun|
            && (forall r :: 0 <= r < |s.done| ==> ExactlyOnce(s.done[r], Cores(begun[r].mask), begun[r].vaddr))
            && (s.pc == Ready ==> |s.done| == |begun| && forall c: nat :: Quiet(s, c))
  {
    hide ExactlyOnce, Cores, TargetsBelow, Sent, Acknowledged, HaveFlushed;
    RunInv(run, steps, i);
    RoundsAreBegun(run, steps, i);
    var s := run[i];
    forall r | 0 <= r < |s.done| ensures ExactlyOnce(s.done[r], Cores(s.rounds[r].mask), s.rounds[r].vaddr) {
      TargetsAreCores(s.rounds[r].mask);
    }
    if s.pc == Ready { NothingSent(s); }
  }

  lemma NothingSent(s: State)
    requires s.pc == Ready
    ensures Sent(s) == {}
  {
  }

  // ---- Completion ----

  function InitiatorLeft(pc: Pc): nat {
    match pc
    case Ready => 0
    case AddrStored => 7
    case Sending(n, _) => if n <= 4 then 6 - n else 0
    case Waiting(_) => 1
  }

  function PhaseLeft(p: Phase): nat {
    match p
    case Idle => 0
    case Entered => 4
    case HasAddr(_) => 3
    case Flushed => 2
    case Acked => 1
  }

  function PhasesLeft(ps: seq<Phase>): nat {
    if ps == [] then 0 else PhaseLeft(ps[0]) + PhasesLeft(ps[1..])
  }

  lemma {:induction false} PhasesLeftUpdate(ps: seq<Phase>, c: nat, p: Phase)
    requires c < |ps|
    ensures PhasesLeft(ps[c := p]) + PhaseLeft(ps[c]) == PhasesLeft(ps) + PhaseLeft(p)
  {
    if c == 0 {
      assert ps[0 := p][1..] == ps[1..];
    } else {
      PhasesLeftUpdate(ps[1..], c - 1, p);
      assert ps[c := p][1..] == ps[1..][c - 1 := p];
    }
  }

  function HandlersLeft(s: State): nat { 5 * |s.pending| + PhasesLeft(s.phase) }

  /** The step brings the end of the shootdown nearer, and begins no other. */
  ghost predicate Helps(s: State, a: Action) {
    && Enabled(s, a) && !a.Begin? && Next(s, a).rounds == s.rounds
    && (InitiatorLeft(Next(s, a).pc) < InitiatorLeft(s.pc) ||
        (Next(s, a).pc == s.pc && HandlersLeft(Next(s, a)) < HandlersLeft(s)))
  }

  /** A handler that has started can go on. */
  lemma HandlerHelps(s: State, c: nat) returns (a: Action)
    requires c < |s.phase| && s.phase[c] != Idle
    ensures Helps(s, a)
  {
    match s.phase[c] {
      case Entered => a := LoadAddr(c);
      case HasAddr(_) => a := DoFlush(c);
      case Flushed => a := Acknowledge(c);
      case Acked => a := EndOfInterrupt(c);
    }
    PhasesLeftUpdate(s.phase, c, Next(s, a).phase[c]);
  }

  /** An undelivered interrupt can be delivered to an idle core. */
  lemma DeliveryHelps(s: State, c: nat)
    requires c < |s.phase| && s.phase[c] == Idle && c in s.pending
    ensures Helps(s, Deliver(c))
  {
    PhasesLeftUpdate(s.phase, c, Entered);
    assert |s.pending - {c}| == |s.pending| - 1;
  }

  /** With all handlers through, the wait is over. */
  lemma LeaveHelps(s: State)
    requires Inv(s) && s.pc.Waiting? && s.pending == {} && forall c: nat :: c < |s.phase| ==> s.phase[c] == Idle
    ensures Helps(s, Leave)
  {
    hide ExactlyOnce, Finished, TargetsBelow, HaveFlushed;
    assert Acknowledged(s) == Sent(s);
  }

  lemma PendingIsSent(s: State, c: nat)
    requires Inv(s) && c in s.pending
    ensures c < 4
  {
    hide ExactlyOnce, Finished, HaveFlushed, Acknowledged, Targeted;
    assert c in Sent(s);
  }

  ghost predicate AtRest(s: State) {
    s.pc == Ready && s.pending == {} && forall c: nat :: c < |s.phase| ==> s.phase[c] == Idle
  }

  /** As long as something is under way, some step helps. */
  lemma SomethingHelps(s: State) returns (a: Action)
    requires Inv(s) && !AtRest(s)
    ensures Helps(s, a)
  {
    hide ExactlyOnce, Finished, HaveFlushed, Acknowledged, TargetsBelow, Targeted, PhasesLeft;
    if s.pc == AddrStored {
      a := ClearAck;
    } else if s.pc.Sending? {
      a := if s.pc.next < 4 then Send else EndSend;
    } else if exists c: nat :: c < |s.phase| && s.phase[c] != Idle {
      var c: nat :| c < |s.phase| && s.phase[c] != Idle;
      a := HandlerHelps(s, c);
    } else if s.pending != {} {
      var c :| c in s.pending;
      PendingIsSent(s, c);
      DeliveryHelps(s, c);
      a := Deliver(c);
    } else {
      LeaveHelps(s);
      a := Leave;
    }
  }

  /** If the interrupts are delivered, a shootdown can always be completed: every run can be continued, without beginning
      another shootdown, until the initiator and all handlers are through. */
  lemma {:induction false} ShootdownCompletes(run: seq<State>, steps: seq<Action>) returns (longer: seq<State>, more: seq<Action>)
    requires IsRun(run, steps)
    ensures IsRun(longer, more) && run <= longer && steps <= more && AtRest(longer[|more|])
    ensures longer[|more|].rounds == run[|steps|].rounds
    decreases InitiatorLeft(run[|steps|].pc), HandlersLeft(run[|steps|])
  {
    hide Inv, Init, Enabled, Next, AtRest, HandlersLeft, InitiatorLeft;
    var s := run[|steps|];
    if AtRest(s) {
      return run, steps;
    }
    RunInv(run, steps, |steps|);
    var a := SomethingHelps(s);
    longer, more := ShootdownCompletes(run + [Next(s, a)], steps + [a]);
  }
}
