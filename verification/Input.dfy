/** The input path: PS/2 bytes, the driver's packets, the one-word IPC mailbox, and the events the user interface
    decodes from it. */
module Input {
  import opened Collections
  import opened Mailbox

  /** One pass of the polling loop: the status register and, if a byte is there, the data register. */
  datatype Poll = Poll(status: bv8, data: bv8)

  predicate HasByte(p: Poll) { p.status & 1 != 0 }
  predicate IsMouse(p: Poll) { HasByte(p) && p.status & 0x20 != 0 }
  predicate IsKey(p: Poll) { HasByte(p) && p.status & 0x20 == 0 }

  /** What the user interface sees. */
  datatype Event = Mouse(flags: bv8, dx: int, dy: int) | Key(scancode: bv8) | Other

  function MousePayload(flags: bv8, dx: bv8, dy: bv8): bv64 {
    (0x5E << 24) | ((flags as bv64) << 16) | ((dx as bv64) << 8) | (dy as bv64)
  }

  function KeyPayload(data: bv8): bv64 {
    (0x11 << 24) | (data as bv64)
  }

  /** `as i8 as i32`. */
  function Signed(b: bv8): int {
    if b < 128 then b as int else b as int - 256
  }

  function Id(msg: bv64): bv64 { (msg >> 24) & 0xFF }
  function Field(msg: bv64, shift: nat): bv8
    requires shift <= 16
  {
    ((msg >> shift) & 0xFF) as bv8
  }

  function Decode(msg: bv64): Event {
    if Id(msg) == 0x5E then Mouse(Field(msg, 16), Signed(Field(msg, 8)), Signed(Field(msg, 0)))
    else if Id(msg) == 0x11 then Key(Field(msg, 0))
    else Other
  }

  /** Decoding inverts the driver's encoding, and no payload is the empty mailbox word. */
  lemma MouseRoundTrip(flags: bv8, dx: bv8, dy: bv8)
    ensures MousePayload(flags, dx, dy) != 0
    ensures Decode(MousePayload(flags, dx, dy)) == Mouse(flags, Signed(dx), Signed(dy))
  {
    var m := MousePayload(flags, dx, dy);
    assert Id(m) == 0x5E;
    assert Field(m, 16) == flags;
    assert Field(m, 8) == dx;
    assert Field(m, 0) == dy;
  }

  lemma KeyRoundTrip(data: bv8)
    ensures KeyPayload(data) != 0 && Decode(KeyPayload(data)) == Key(data)
  {
    var m := KeyPayload(data);
    assert Id(m) == 0x11;
    assert Field(m, 0) == data;
  }

  /** The bytes of the mouse, and of the keyboard, in the order they were polled. */
  function MouseBytes(polls: seq<Poll>): seq<bv8> {
    if polls == [] then [] else
      var before, p := MouseBytes(polls[..|polls| - 1]), polls[|polls| - 1];
      if IsMouse(p) then before + [p.data] else before
  }

  function KeyBytes(polls: seq<Poll>): seq<bv8> {
    if polls == [] then [] else
      var before, p := KeyBytes(polls[..|polls| - 1]), polls[|polls| - 1];
      if IsKey(p) then before + [p.data] else before
  }

  /** What the driver has to send on poll `p` after `before`: a key at once, a mouse packet with every third
      mouse byte. */
  function Emitted(before: seq<Poll>, p: Poll): seq<bv64> {
    var m := MouseBytes(before + [p]);
    if IsKey(p) then [KeyPayload(p.data)]
    else if IsMouse(p) && |m| >= 3 && |m| % 3 == 0 then [MousePayload(m[|m| - 3], m[|m| - 2], m[|m| - 1])]
    else []
  }

  function Sent(polls: seq<Poll>): seq<bv64> {
    if polls == [] then [] else
      Sent(polls[..|polls| - 1]) + Emitted(polls[..|polls| - 1], polls[|polls| - 1])
  }

  class Driver {
    var mouseCycle: nat
    const mousePacket: array<bv8>
    ghost var polls: seq<Poll>

    /** The packet holds the mouse bytes since the last full triple. */
    ghost predicate Valid()
      reads this, mousePacket
    {
      var m := MouseBytes(polls);
      && mousePacket.Length == 3 && mouseCycle == |m| % 3
      && forall i :: 0 <= i < mouseCycle ==> mousePacket[i] == m[|m| - mouseCycle + i]
    }

    constructor ()
      ensures Valid() && polls == [] && fresh(mousePacket)
    {
      mouseCycle := 0;
      mousePacket := new bv8[3](_ => 0);
      polls := [];
    }

    method PollOnce(p: Poll) returns (payload: Option<bv64>)
      requires Valid()
      modifies this, mousePacket
      ensures Valid() && polls == old(polls) + [p]
      ensures Emitted(old(polls), p) == if payload.Some? then [payload.value] else []
    {
      ghost var before := MouseBytes(polls);
      ghost var all := polls + [p];
      assert all[..|all| - 1] == polls;
      polls := all;
      if p.status & 1 != 0 {
        if p.status & 0x20 != 0 {
          mousePacket[mouseCycle] := p.data;
          mouseCycle := mouseCycle + 1;
          assert MouseBytes(polls) == before + [p.data];
          if mouseCycle == 3 {
            mouseCycle := 0;
            return Some(MousePayload(mousePacket[0], mousePacket[1], mousePacket[2]));
          }
        } else {
          return Some(KeyPayload(p.data));
        }
      }
      return None;
    }
  }

  /** The words that carry mouse events. */
  function OnlyMouse(words: seq<bv64>): seq<bv64> {
    if words == [] then [] else
      var last := words[|words| - 1];
      OnlyMouse(words[..|words| - 1]) + if Id(last) == 0x5E then [last] else []
  }

  function OnlyKeys(words: seq<bv64>): seq<bv64> {
    if words == [] then [] else
      var last := words[|words| - 1];
      OnlyKeys(words[..|words| - 1]) + if Id(last) == 0x11 then [last] else []
  }

  /** The consecutive disjoint triples of a byte stream, as packets. */
  function Packets(m: seq<bv8>): seq<bv64> {
    seq(|m| / 3, k requires 0 <= k < |m| / 3 => MousePayload(m[3 * k], m[3 * k + 1], m[3 * k + 2]))
  }

  function Keys(k: seq<bv8>): seq<bv64> {
    seq(|k|, i requires 0 <= i < |k| => KeyPayload(k[i]))
  }

  lemma FilterAppend(words: seq<bv64>, w: bv64)
    ensures OnlyMouse(words + [w]) == OnlyMouse(words) + if Id(w) == 0x5E then [w] else []
    ensures OnlyKeys(words + [w]) == OnlyKeys(words) + if Id(w) == 0x11 then [w] else []
  {
    assert (words + [w])[..|words|] == words;
  }

  lemma PayloadIds(flags: bv8, dx: bv8, dy: bv8)
    ensures Id(MousePayload(flags, dx, dy)) == 0x5E && Id(KeyPayload(flags)) == 0x11
  {
  }

  lemma PacketsAppend(m: seq<bv8>, b: bv8)
    ensures var n := m + [b];
            Packets(n) == Packets(m) + if |n| % 3 == 0 then [MousePayload(n[|n| - 3], n[|n| - 2], n[|n| - 1])] else []
  {
    hide MousePayload;
  }

  lemma OneKind(p: Poll)
    ensures !(IsMouse(p) && IsKey(p))
  {
  }

  lemma SentFilters(before: seq<Poll>, p: Poll)
    ensures var e := Emitted(before, p);
            && Sent(before + [p]) == Sent(before) + e
            && OnlyMouse(Sent(before + [p])) == OnlyMouse(Sent(before)) + (if IsKey(p) then [] else e)
            && OnlyKeys(Sent(before + [p])) == OnlyKeys(Sent(before)) + (if IsKey(p) then e else [])
  {
    hide Emitted, Id, IsKey, OnlyMouse, OnlyKeys;
    assert (before + [p])[..|before|] == before;
    var e := Emitted(before, p);
    if e != [] {
      EmittedIds(before, p);
      FilterAppend(Sent(before), e[0]);
      assert e == [e[0]];
    } else {
      assert Sent(before) + e == Sent(before);
    }
  }

  /** Keyboard bytes in between change nothing: the mouse packets sent are the consecutive triples of the mouse's own
      bytes, and the keys sent are the keyboard's own bytes. */
  lemma {:induction false} StreamsAreSeparate(polls: seq<Poll>)
    ensures OnlyMouse(Sent(polls)) == Packets(MouseBytes(polls))
    ensures OnlyKeys(Sent(polls)) == Keys(KeyBytes(polls))
  {
    hide MousePayload, KeyPayload, Id, Packets, IsMouse, IsKey, OnlyMouse, OnlyKeys, Sent;
    if polls != [] {
      var before, p := polls[..|polls| - 1], polls[|polls| - 1];
      StreamsAreSeparate(before);
      assert before + [p] == polls;
      OneKind(p);
      SentFilters(before, p);
      PacketsAppend(MouseBytes(before), p.data);
    } else {
      NoPackets();
    }
  }

  lemma NoPackets()
    ensures Packets([]) == [] && OnlyMouse([]) == [] && OnlyKeys([]) == []
    ensures Sent([]) == [] && MouseBytes([]) == [] && KeyBytes([]) == []
  {
  }

  lemma EmittedIds(before: seq<Poll>, p: Poll)
    requires Emitted(before, p) != []
    ensures |Emitted(before, p)| == 1
    ensures Id(Emitted(before, p)[0]) == if IsKey(p) then 0x11 else 0x5E
  {
    hide MousePayload, KeyPayload, Id, MouseBytes;
    var m := MouseBytes(before + [p]);
    if IsKey(p) { PayloadIds(p.data, 0, 0); } else { PayloadIds(m[|m| - 3], m[|m| - 2], m[|m| - 1]); }
  }

  /** The event the devices meant with poll `p` after `before`, if any. */
  function Meant(before: seq<Poll>, p: Poll): seq<Event> {
    var m := MouseBytes(before + [p]);
    if IsKey(p) then [Key(p.data)]
    else if IsMouse(p) && |m| >= 3 && |m| % 3 == 0 then [Mouse(m[|m| - 3], Signed(m[|m| - 2]), Signed(m[|m| - 1]))]
    else []
  }

  function Intended(polls: seq<Poll>): seq<Event> {
    if polls == [] then [] else
      Intended(polls[..|polls| - 1]) + Meant(polls[..|polls| - 1], polls[|polls| - 1])
  }

  lemma EmittedMeansMeant(before: seq<Poll>, p: Poll)
    ensures |Emitted(before, p)| == |Meant(before, p)| <= 1
    ensures Emitted(before, p) != [] ==> Emitted(before, p)[0] != 0 && Decode(Emitted(before, p)[0]) == Meant(before, p)[0]
  {
    hide MousePayload, KeyPayload, Decode, Signed, IsMouse, IsKey, MouseBytes;
    var m := MouseBytes(before + [p]);
    KeyRoundTrip(p.data);
    if |m| >= 3 { MouseRoundTrip(m[|m| - 3], m[|m| - 2], m[|m| - 1]); }
  }

  lemma {:induction false} SentMeansIntended(polls: seq<Poll>)
    ensures |Sent(polls)| == |Intended(polls)|
    ensures forall i :: 0 <= i < |Sent(polls)| ==> Sent(polls)[i] != 0 && Decode(Sent(polls)[i]) == Intended(polls)[i]
  {
    hide Decode, Emitted, Meant;
    if polls != [] {
      SentMeansIntended(polls[..|polls| - 1]);
      EmittedMeansMeant(polls[..|polls| - 1], polls[|polls| - 1]);
    }
  }

  datatype Act = DriverPolls(p: Poll) | UiReceives

  function PollsOf(acts: seq<Act>): seq<Poll> {
    if acts == [] then [] else
      PollsOf(acts[..|acts| - 1]) + if acts[|acts| - 1].DriverPolls? then [acts[|acts| - 1].p] else []
  }

  /** How many words the driver has stored. */
  function StoredBy(acts: seq<Act>): nat { |Sent(PollsOf(acts))| }

  /** The part up to the last receive. */
  function UpToReceive(acts: seq<Act>): seq<Act> {
    if acts == [] || acts[|acts| - 1].UiReceives? then acts else UpToReceive(acts[..|acts| - 1])
  }

  /** A word was stored since the last receive. */
  predicate Pending(acts: seq<Act>) {
    StoredBy(UpToReceive(acts)) < StoredBy(acts)
  }

  /** Which words are received: at each receive the last one stored, if one was stored since the receive before. */
  function Picks(acts: seq<Act>): seq<nat> {
    if acts == [] then [] else
      var front := acts[..|acts| - 1];
      if acts[|acts| - 1].UiReceives? && Pending(front) then Picks(front) + [StoredBy(front) - 1] else Picks(front)
  }

  lemma {:induction false} StoredGrows(acts: seq<Act>)
    ensures StoredBy(UpToReceive(acts)) <= StoredBy(acts)
  {
    hide Emitted;
    if acts != [] && acts[|acts| - 1].DriverPolls? {
      StoredGrows(acts[..|acts| - 1]);
      var polls := PollsOf(acts);
      assert polls[..|polls| - 1] == PollsOf(acts[..|acts| - 1]);
    }
  }

  /** After a poll a word is pending exactly if one was before or the poll stored one. */
  lemma PendingNext(acts: seq<Act>, a: Act)
    ensures var more := acts + [a];
            Pending(more) <==> a.DriverPolls? && (Pending(acts) || Emitted(PollsOf(acts), a.p) != [])
  {
    hide Emitted;
    var more := acts + [a];
    assert more[..|more| - 1] == acts;
    StoredGrows(acts);
    if a.DriverPolls? {
      var polls := PollsOf(more);
      assert polls[..|polls| - 1] == PollsOf(acts);
    }
  }

  /** What the mailbox holds after these acts. */
  ghost predicate Holds(slot: Slot, acts: seq<Act>) {
    && InOrder(slot) && slot.stored == Sent(PollsOf(acts)) && slot.picks == Picks(acts)
    && (slot.value != 0 <==> Pending(acts))
  }

  /** From polling loop to user interface, in any interleaving of the driver and the receiver: the events received are
      events the devices meant, in their order and each at most once, with the same flags, signed movements
      and scancodes; and every receive gets the last word stored since the receive before, if there is one. */
  method Pipeline(acts: seq<Act>) returns (slot: Slot, events: seq<Event>)
    ensures InOrder(slot) && slot.stored == Sent(PollsOf(acts)) && |events| == |slot.picks|
    ensures slot.picks == Picks(acts) && Increasing(slot.picks)
    ensures forall i :: 0 <= i < |events| ==>
      slot.picks[i] < |Intended(PollsOf(acts))| && events[i] == Intended(PollsOf(acts))[slot.picks[i]]
  {
    hide InOrder, Emitted, Decode, MouseBytes, Holds, Picks;
    slot, events := EMPTY, [];
    HoldsNothing();
    var d := new Driver();
    var i := 0;
    while i < |acts|
      invariant 0 <= i <= |acts| && fresh(d) && fresh(d.mousePacket) && d.Valid()
      invariant d.polls == PollsOf(acts[..i]) && Holds(slot, acts[..i])
      invariant |events| == |slot.received| && forall j :: 0 <= j < |events| ==> events[j] == Decode(slot.received[j])
    {
      assert acts[..i + 1] == acts[..i] + [acts[i]] && acts[..i + 1][..i] == acts[..i];
      match acts[i] {
        case DriverPolls(p) =>
          HoldsAfterPoll(slot, acts[..i], p);
          var payload := d.PollOnce(p);
          if payload.Some? {
            slot := slot.Store(payload.value);
          }
        case UiReceives =>
          HoldsAfterReceive(slot, acts[..i]);
          var msg := slot.value;
          slot := slot.Swap();
          if msg != 0 {
            events := events + [Decode(msg)];
          }
      }
      i := i + 1;
    }
    assert acts[..|acts|] == acts;
    HoldsFacts(slot, acts);
    SentMeansIntended(d.polls);
    ReceivedMeansIntended(slot, d.polls, events);
  }

  lemma HoldsNothing()
    ensures Holds(EMPTY, [])
  {
  }

  lemma HoldsFacts(slot: Slot, acts: seq<Act>)
    requires Holds(slot, acts)
    ensures InOrder(slot) && slot.stored == Sent(PollsOf(acts)) && slot.picks == Picks(acts)
  {
  }

  lemma PollsNext(acts: seq<Act>, p: Poll)
    ensures PollsOf(acts + [DriverPolls(p)]) == PollsOf(acts) + [p] && Picks(acts + [DriverPolls(p)]) == Picks(acts)
  {
    hide Pending;
    assert (acts + [DriverPolls(p)])[..|acts|] == acts;
  }

  lemma SentNext(polls: seq<Poll>, p: Poll)
    ensures Sent(polls + [p]) == Sent(polls) + Emitted(polls, p)
  {
    hide Emitted;
    assert (polls + [p])[..|polls|] == polls;
  }

  lemma ReceiveNext(acts: seq<Act>)
    ensures PollsOf(acts + [UiReceives]) == PollsOf(acts)
    ensures Picks(acts + [UiReceives]) == Picks(acts) + if Pending(acts) then [|Sent(PollsOf(acts))| - 1] else []
  {
    hide Sent;
    assert (acts + [UiReceives])[..|acts|] == acts;
  }

  lemma HoldsAfterPoll(slot: Slot, acts: seq<Act>, p: Poll)
    requires Holds(slot, acts)
    ensures var e := Emitted(PollsOf(acts), p);
            Holds(if e == [] then slot else slot.Store(e[0]), acts + [DriverPolls(p)])
  {
    hide Emitted, InOrder, Pending, Sent, PollsOf, Picks, Meant, Decode;
    var polls := PollsOf(acts);
    var e := Emitted(polls, p);
    PollsNext(acts, p);
    SentNext(polls, p);
    EmittedMeansMeant(polls, p);
    PendingNext(acts, DriverPolls(p));
    if e != [] {
      StoreInOrder(slot, e[0]);
      assert e == [e[0]];
    }
  }

  lemma HoldsAfterReceive(slot: Slot, acts: seq<Act>)
    requires Holds(slot, acts)
    ensures Holds(slot.Swap(), acts + [UiReceives])
    ensures slot.Swap().received == slot.received + if slot.value != 0 then [slot.value] else []
  {
    hide Pending, Sent, PollsOf, Picks;
    SwapInOrder(slot);
    PendingNext(acts, UiReceives);
    ReceiveNext(acts);
    hide InOrder;
    assert slot.Swap().picks == slot.picks + if slot.value != 0 then [|slot.stored| - 1] else [];
  }

  lemma ReceivedMeansIntended(slot: Slot, polls: seq<Poll>, events: seq<Event>)
    requires InOrder(slot) && slot.stored == Sent(polls) && |events| == |slot.received|
    requires forall j :: 0 <= j < |events| ==> events[j] == Decode(slot.received[j])
    ensures |events| == |slot.picks| && Increasing(slot.picks)
    ensures forall i :: 0 <= i < |events| ==>
      slot.picks[i] < |Intended(polls)| && events[i] == Intended(polls)[slot.picks[i]]
  {
    hide Decode, Sent, Intended;
    SentMeansIntended(polls);
  }
}
