/** The bump allocator of physical 4 KiB frames over the bootloader's memory map. */
module Frames {
  import opened Words

  const PAGE_SIZE: nat := 4096

  /** One entry of the memory map; `base` and `length` are 64-bit words. */
  datatype Entry = Entry(base: nat, length: nat, usable: bool)

  type MemoryMap = seq<Entry>

  datatype Allocation = Frame(addr: nat) | Exhausted | Panic

  function RoundUp(a: nat): (r: nat)
    ensures a <= r < a + PAGE_SIZE && r % PAGE_SIZE == 0
  {
    (a + (PAGE_SIZE - 1)) / PAGE_SIZE * PAGE_SIZE
  }

  /** The page-aligned frames wholly inside `[from, end)`, lowest first. */
  function FramesIn(from: nat, end: nat): seq<nat> {
    var first := RoundUp(from);
    seq(if first <= end then (end - first) / PAGE_SIZE else 0, i requires 0 <= i => first + PAGE_SIZE * i)
  }

  function RegionFrames(e: Entry): seq<nat> {
    if e.usable then FramesIn(e.base, e.base + e.length) else []
  }

  /** Every frame of the map, in map order. */
  function AllFrames(m: MemoryMap): seq<nat> {
    if m == [] then [] else RegionFrames(m[0]) + AllFrames(m[1..])
  }

  /** What is left to hand out when the cursor stands at address `cur` of region `r`;
      `cur == 0` stands for a region that was not entered yet. */
  function Remaining(m: MemoryMap, r: nat, cur: nat): seq<nat>
    requires r <= |m|
  {
    if r == |m| then []
    else if !m[r].usable then AllFrames(m[r + 1..])
    else FramesIn(if cur == 0 then m[r].base else cur, m[r].base + m[r].length) + AllFrames(m[r + 1..])
  }

  function RoundDown(a: nat): (r: nat)
    ensures r <= a < r + PAGE_SIZE && r % PAGE_SIZE == 0
  {
    a / PAGE_SIZE * PAGE_SIZE
  }

  /** Where the search of the region ends: behind its last frame, or at its first page boundary if it has none. */
  function LastStop(e: Entry): nat {
    var first, last := RoundUp(e.base), RoundDown(e.base + e.length);
    if first < last then last else first
  }

  /** The allocator's checked additions fit in 64 bits all the way through the region. */
  predicate Fits(e: Entry) {
    e.base + e.length < U64 && LastStop(e) + PAGE_SIZE < U64
  }

  /** The allocator's checked additions overflow nowhere in the map. */
  ghost predicate NoOverflow(m: MemoryMap) {
    forall e :: e in m && e.usable ==> Fits(e)
  }

  ghost predicate Disjoint(m: MemoryMap) {
    forall i, j :: 0 <= i < j < |m| && m[i].usable && m[j].usable ==>
      m[i].base + m[i].length <= m[j].base || m[j].base + m[j].length <= m[i].base
  }

  /** The frame at `a` is aligned and wholly inside the region. */
  predicate Inside(a: nat, e: Entry) {
    e.usable && a % PAGE_SIZE == 0 && e.base <= a && a + PAGE_SIZE <= e.base + e.length
  }

  lemma FramesInMember(a: nat, from: nat, end: nat)
    ensures a in FramesIn(from, end) <==> a % PAGE_SIZE == 0 && from <= a && a + PAGE_SIZE <= end
  {
    var first := RoundUp(from);
    if a % PAGE_SIZE == 0 && from <= a && a + PAGE_SIZE <= end {
      var i := (a - first) / PAGE_SIZE;
      assert a == first + PAGE_SIZE * i;
      assert FramesIn(from, end)[i] == a;
    }
  }

  /** The map's frames are exactly the aligned pages wholly inside a usable region. */
  lemma {:induction false} AllFramesMember(m: MemoryMap, a: nat)
    ensures a in AllFrames(m) <==> exists i :: 0 <= i < |m| && Inside(a, m[i])
  {
    if m != [] {
      AllFramesMember(m[1..], a);
      if m[0].usable { FramesInMember(a, m[0].base, m[0].base + m[0].length); }
      if Inside(a, m[0]) { assert Inside(a, m[0]); }
      if i :| 0 <= i < |m[1..]| && Inside(a, m[1..][i]) { assert Inside(a, m[i + 1]); }
      if i :| 0 <= i < |m| && Inside(a, m[i]) && i > 0 { assert Inside(a, m[1..][i - 1]); }
    }
  }

  ghost predicate Distinct(s: seq<nat>) {
    forall i, j :: 0 <= i < j < |s| ==> s[i] != s[j]
  }

  /** No frame is listed twice when the usable regions do not overlap. */
  lemma {:induction false} AllFramesDistinct(m: MemoryMap)
    requires Disjoint(m)
    ensures Distinct(AllFrames(m))
  {
    if m != [] {
      var head, tail := RegionFrames(m[0]), AllFrames(m[1..]);
      assert Disjoint(m[1..]) by {
        assert forall i :: 0 <= i < |m[1..]| ==> m[1..][i] == m[i + 1];
      }
      AllFramesDistinct(m[1..]);
      forall i, j | 0 <= i < |head| && 0 <= j < |tail|
        ensures head[i] != tail[j]
      {
        assert head[i] in head && tail[j] in tail;
        FramesInMember(head[i], m[0].base, m[0].base + m[0].length);
        AllFramesMember(m[1..], tail[j]);
        var k :| 0 <= k < |m[1..]| && Inside(tail[j], m[1..][k]);
        assert m[1..][k] == m[k + 1];
      }
      DistinctConcat(head, tail);
    }
  }

  lemma DistinctConcat(s: seq<nat>, t: seq<nat>)
    requires Distinct(s) && Distinct(t)
    requires forall i, j :: 0 <= i < |s| && 0 <= j < |t| ==> s[i] != t[j]
    ensures Distinct(s + t)
  {
  }

  /** The bytes that `physical::init` reports as usable. */
  function UsableBytes(m: MemoryMap): nat {
    if m == [] then 0 else (if m[0].usable then m[0].length else 0) + UsableBytes(m[1..])
  }

  predicate PageAligned(m: MemoryMap) {
    forall e :: e in m && e.usable ==> e.base % PAGE_SIZE == 0 && e.length % PAGE_SIZE == 0
  }

  /** The frames fit in the reported memory, and fill it when all regions are page aligned. */
  lemma {:induction false} FrameCount(m: MemoryMap)
    ensures PAGE_SIZE * |AllFrames(m)| <= UsableBytes(m)
    ensures PageAligned(m) ==> PAGE_SIZE * |AllFrames(m)| == UsableBytes(m)
  {
    hide FramesIn, RoundUp;
    if m != [] {
      FrameCount(m[1..]);
      assert PageAligned(m) ==> PageAligned(m[1..]);
      var e := m[0];
      assert e in m;
      if e.usable {
        RegionCount(e.base, e.length);
      }
    }
  }

  lemma RegionCount(base: nat, length: nat)
    ensures PAGE_SIZE * |FramesIn(base, base + length)| <= length
    ensures base % PAGE_SIZE == 0 && length % PAGE_SIZE == 0 ==>
              PAGE_SIZE * |FramesIn(base, base + length)| == length
  {
  }

  /** Taking the first frame of a non-empty span leaves the span after it. */
  lemma FramesInStep(from: nat, end: nat)
    requires RoundUp(from) + PAGE_SIZE <= end
    ensures FramesIn(from, end) == [RoundUp(from)] + FramesIn(RoundUp(from) + PAGE_SIZE, end)
  {
    var first := RoundUp(from);
    var rest := FramesIn(first + PAGE_SIZE, end);
    assert RoundUp(first + PAGE_SIZE) == first + PAGE_SIZE;
    assert |FramesIn(from, end)| == 1 + |rest|;
  }

  /** The address from which region `r` is searched. */
  function Start(m: MemoryMap, r: nat, cur: nat): nat
    requires r < |m|
  {
    if cur == 0 then m[r].base else cur
  }

  /** A page boundary of the region, its end included. */
  predicate InsideOrEnd(e: Entry, cur: nat) {
    cur % PAGE_SIZE == 0 && e.base <= cur <= e.base + e.length
  }

  /** The search from `a` fits in 64 bits if the whole region does; and if it is the last one, also only then. */
  lemma SearchFits(e: Entry, a: nat)
    requires a == e.base || InsideOrEnd(e, a)
    ensures RoundUp(a) <= LastStop(e)
    ensures RoundUp(a) + PAGE_SIZE > e.base + e.length ==> RoundUp(a) == LastStop(e)
  {
    hide RoundUp, RoundDown;
    var end := e.base + e.length;
    if a != e.base { AlignedStays(a); }
    Multiples(RoundUp(e.base), RoundUp(a));
    Multiples(RoundUp(a), RoundDown(end));
    Multiples(RoundDown(end), RoundUp(a));
  }

  lemma AlignedStays(a: nat)
    requires a % PAGE_SIZE == 0
    ensures RoundUp(a) == a
  {
  }

  /** Page boundaries less than a page apart are the same. */
  lemma Multiples(a: nat, b: nat)
    requires a % PAGE_SIZE == 0 && b % PAGE_SIZE == 0
    ensures a < b + PAGE_SIZE ==> a <= b
  {
  }

  /** The cursor stands exactly after the first `n` frames of the map. */
  ghost predicate CursorAt(m: MemoryMap, r: nat, cur: nat, n: nat) {
    && r <= |m|
    && (cur != 0 ==> r < |m| && m[r].usable && InsideOrEnd(m[r], cur))
    && n <= |AllFrames(m)|
    && Remaining(m, r, cur) == AllFrames(m)[n..]
  }

  lemma CursorFacts(m: MemoryMap, r: nat, cur: nat, n: nat)
    requires CursorAt(m, r, cur, n)
    ensures r <= |m| && (cur != 0 ==> r < |m| && m[r].usable && InsideOrEnd(m[r], cur))
    ensures r == |m| ==> n == |AllFrames(m)|
  {
  }

  lemma CursorTake(m: MemoryMap, r: nat, cur: nat, n: nat)
    requires CursorAt(m, r, cur, n) && r < |m| && m[r].usable
    requires RoundUp(Start(m, r, cur)) + PAGE_SIZE <= m[r].base + m[r].length
    ensures var a := RoundUp(Start(m, r, cur));
            n < |AllFrames(m)| && AllFrames(m)[n] == a && CursorAt(m, r, a + PAGE_SIZE, n + 1)
  {
    hide RoundUp, FramesIn, AllFrames;
    var a, end := RoundUp(Start(m, r, cur)), m[r].base + m[r].length;
    FramesInStep(Start(m, r, cur), end);
    assert Remaining(m, r, cur) == [a] + Remaining(m, r, a + PAGE_SIZE);
    TakeFirst(AllFrames(m), n, a, Remaining(m, r, a + PAGE_SIZE));
  }

  /** Moving past a region with nothing left in it keeps what remains. */
  lemma CursorSkip(m: MemoryMap, r: nat, cur: nat, n: nat)
    requires CursorAt(m, r, cur, n) && r < |m|
    requires m[r].usable ==> RoundUp(Start(m, r, cur)) + PAGE_SIZE > m[r].base + m[r].length
    ensures CursorAt(m, r + 1, 0, n)
  {
    if r + 1 < |m| {
      assert m[r + 1..][0] == m[r + 1];
      assert m[r + 1..][1..] == m[r + 2..];
    }
    if m[r].usable {
      assert FramesIn(Start(m, r, cur), m[r].base + m[r].length) == [];
    }
    assert Remaining(m, r, cur) == Remaining(m, r + 1, 0);
  }

  lemma TakeFirst(all: seq<nat>, n: nat, f: nat, rest: seq<nat>)
    requires n <= |all| && all[n..] == [f] + rest
    ensures n < |all| && all[n] == f && all[n + 1..] == rest
  {
    assert |all[n..]| == 1 + |rest|;
    assert all[n..][0] == f;
    assert all[n + 1..] == all[n..][1..];
  }

  /** The allocator's own alignment expression is the least multiple of the page size from `a` on. */
  function AlignUp(a: nat): (r: nat)
    requires a + PAGE_SIZE < U64
    ensures r == RoundUp(a)
  {
    Pow2Of64();
    MaskRoundsUp(a, 12);
    And(a + PAGE_SIZE - 1, Not64(PAGE_SIZE - 1))
  }

  class FrameAllocator {
    const memoryMap: MemoryMap
    var regionIndex: nat
    var currentAddr: nat
    /** How many frames were handed out. */
    ghost var handed: nat

    ghost predicate Valid()
      reads this
    {
      CursorAt(memoryMap, regionIndex, currentAddr, handed)
    }

    constructor (m: MemoryMap)
      ensures memoryMap == m && Valid() && handed == 0 && regionIndex == 0
    {
      memoryMap, regionIndex, currentAddr, handed := m, 0, 0, 0;
    }

    /** The loop body for one usable region: take its next frame, or move past the region. */
    method SearchRegion() returns (res: Allocation)
      requires Valid() && regionIndex < |memoryMap| && memoryMap[regionIndex].usable
      modifies this
      ensures res.Panic? ==> handed == old(handed) && !Fits(memoryMap[old(regionIndex)])
      ensures res.Frame? ==>
        && Valid() && old(handed) < |AllFrames(memoryMap)| && handed == old(handed) + 1
        && res.addr == AllFrames(memoryMap)[old(handed)] && regionIndex == old(regionIndex)
      ensures res.Exhausted? ==>
        Valid() && handed == old(handed) && regionIndex == old(regionIndex) + 1 && Fits(memoryMap[old(regionIndex)])
    {
      hide CursorAt, RoundUp, AllFrames, LastStop;
      var entry := memoryMap[regionIndex];
      assert entry in memoryMap;
      CursorFacts(memoryMap, regionIndex, currentAddr, handed);
      ghost var r, before := regionIndex, currentAddr;
      if currentAddr == 0 {
        currentAddr := entry.base;
      }
      assert currentAddr == Start(memoryMap, r, before);
      SearchFits(entry, currentAddr);
      if currentAddr + PAGE_SIZE >= U64 || entry.base + entry.length >= U64 {
        return Panic;
      }
      var alignedAddr := AlignUp(currentAddr);
      var regionEnd := entry.base + entry.length;
      if alignedAddr + PAGE_SIZE >= U64 {
        return Panic;
      }
      if alignedAddr + PAGE_SIZE <= regionEnd {
        CursorTake(memoryMap, r, before, handed);
        currentAddr := alignedAddr + PAGE_SIZE;
        handed := handed + 1;
        return Frame(alignedAddr);
      } else {
        CursorSkip(memoryMap, r, before, handed);
        regionIndex := regionIndex + 1;
        currentAddr := 0;
        return Exhausted;
      }
    }

    /** The usable regions from number `from` up to number `to` fit in 64 bits. */
    ghost predicate Passed(from: nat, to: nat) {
      forall i :: from <= i < to && i < |memoryMap| && memoryMap[i].usable ==> Fits(memoryMap[i])
    }

    /** The n-th successful call returns the n-th frame of the map; `None` is returned exactly
        when every frame was handed out, and then again by every later call. It panics only in a region that does not
        fit, and never gets past such a region. */
    method AllocateFrameRaw() returns (res: Allocation)
      requires Valid()
      modifies this
      ensures NoOverflow(memoryMap) ==> !res.Panic?
      ensures res.Frame? ==>
        && Valid() && old(handed) < |AllFrames(memoryMap)| && handed == old(handed) + 1
        && res.addr == AllFrames(memoryMap)[old(handed)]
      ensures res.Exhausted? ==> Valid() && handed == old(handed) == |AllFrames(memoryMap)| && regionIndex == |memoryMap|
      ensures res.Panic? ==> handed == old(handed)
      ensures !res.Panic? ==> old(regionIndex) <= regionIndex && Passed(old(regionIndex), regionIndex)
    {
      hide CursorAt, AllFrames, Fits;
      while regionIndex < |memoryMap|
        invariant Valid() && handed == old(handed)
        invariant old(regionIndex) <= regionIndex && Passed(old(regionIndex), regionIndex)
        decreases |memoryMap| - regionIndex
      {
        CursorFacts(memoryMap, regionIndex, currentAddr, handed);
        if !memoryMap[regionIndex].usable {
          CursorSkip(memoryMap, regionIndex, currentAddr, handed);
          regionIndex := regionIndex + 1;
          continue;
        }
        assert memoryMap[regionIndex] in memoryMap;
        res := SearchRegion();
        if !res.Exhausted? {
          return;
        }
      }
      CursorFacts(memoryMap, regionIndex, currentAddr, handed);
      return Exhausted;
    }
  }

  /** Allocating until there is nothing left: it panics if and only if some usable region does not fit in 64 bits, and
      otherwise the frames handed out are all frames of the map, in order. */
  method TakeAll(m: MemoryMap) returns (frames: seq<nat>, panicked: bool)
    ensures panicked <==> !NoOverflow(m)
    ensures frames <= AllFrames(m) && (!panicked ==> frames == AllFrames(m))
  {
    hide AllFrames, CursorAt, Fits;
    var a := new FrameAllocator(m);
    frames := [];
    while true
      invariant fresh(a) && a.Valid() && a.memoryMap == m && a.Passed(0, a.regionIndex)
      invariant |frames| == a.handed <= |AllFrames(m)| && frames == AllFrames(m)[..a.handed]
      decreases |AllFrames(m)| - a.handed
    {
      var res := a.AllocateFrameRaw();
      if res.Panic? {
        return frames, true;
      }
      if res.Exhausted? {
        assert forall i :: 0 <= i < |m| && m[i].usable ==> Fits(m[i]);
        return frames, false;
      }
      frames := frames + [res.addr];
    }
  }
}
