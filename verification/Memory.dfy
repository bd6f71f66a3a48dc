/** Virtual memory as the kernel and the userland see it: bytes of physical memory reached through
    the page table. A `Space` is one snapshot of it. */
module Memory {
  import opened Frames

  type Byte = b: int | 0 <= b < 256

  function Page(v: nat): nat { v / PAGE_SIZE }
  function Offset(v: nat): (o: nat) ensures o < PAGE_SIZE { v % PAGE_SIZE }
  function FrameBase(a: nat): nat { a - a % PAGE_SIZE }

  /** `all` are the allocator's frames, `boot` the virtual pages the bootloader mapped (for the kernel only),
      `bootTables` the frames that hold the bootloader's page tables, `devices` the frames of device memory,
      `table` the leaf mappings from virtual page to frame address, `ram` the bytes of physical memory. */
  datatype Space =
    Space(all: seq<nat>, boot: set<nat>, bootTables: set<nat>, devices: set<nat>, table: map<nat, nat>, ram: seq<Byte>)
  {
    /** The page leads to a frame of the allocator. */
    predicate Seen(p: nat) {
      p in table && table[p] in all
    }

    /** It does so for a user program. */
    predicate Backed(p: nat) {
      Seen(p) && p !in boot
    }

    /** Allocator frames are aligned pages of memory, no two backed pages share one, and the bootloader's pages are
        mapped. */
    ghost predicate Sound() {
      && boot <= table.Keys
      && (forall f :: f in all ==> f % PAGE_SIZE == 0 && f + PAGE_SIZE <= |ram|)
      && (forall p, q :: Backed(p) && Backed(q) && table[p] == table[q] ==> p == q)
    }

    function Phys(v: nat): nat
      requires Seen(Page(v))
    {
      table[Page(v)] + Offset(v)
    }

    /** The byte that is read at the virtual address `v`. */
    function At(v: nat): Byte
      requires Sound() && Seen(Page(v))
    {
      ram[Phys(v)]
    }

    /** A user program's store of one byte; it faults on a page without a user mapping, and a store to a device page
        leaves memory alone. */
    function Store(v: nat, b: Byte): Space
      requires Sound()
    {
      if Backed(Page(v)) then this.(ram := ram[Phys(v) := b]) else this
    }

    /** The kernel's store of one byte, which goes through the bootloader's mappings too. */
    function KernelStore(v: nat, b: Byte): Space
      requires Sound()
    {
      if Seen(Page(v)) then this.(ram := ram[Phys(v) := b]) else this
    }

    predicate Faults(v: nat) {
      Page(v) !in table || Page(v) in boot
    }

    /** A physical byte that belongs neither to the allocator nor to the boot page tables nor to a device. */
    ghost predicate Foreign(a: nat) {
      FrameBase(a) !in all && FrameBase(a) !in bootTables && FrameBase(a) !in devices
    }
  }

  /** What every kernel operation keeps: existing mappings, the bytes seen through them, and all
      physical bytes that are not the allocator's. */
  ghost predicate Preserves(s: Space, t: Space) {
    && Keeps(s, t)
    && (forall v: nat :: s.Backed(Page(v)) ==> t.Backed(Page(v)) && t.At(v) == s.At(v))
  }

  /** Like `Preserves`, without a promise about the bytes seen through the page table. */
  ghost predicate Keeps(s: Space, t: Space) {
    && s.Sound() && t.Sound()
    && t.all == s.all && t.boot == s.boot && t.bootTables == s.bootTables && t.devices == s.devices && |t.ram| == |s.ram|
    && (forall p :: p in s.table ==> p in t.table && t.table[p] == s.table[p])
    && (forall a :: 0 <= a < |s.ram| && s.Foreign(a) ==> t.ram[a] == s.ram[a])
  }

  lemma KeepsTransitive(s: Space, t: Space, u: Space)
    requires Keeps(s, t) && Keeps(t, u)
    ensures Keeps(s, u)
  {
    forall a | 0 <= a < |s.ram| && s.Foreign(a) ensures u.ram[a] == s.ram[a] {
      assert t.Foreign(a);
    }
  }

  lemma PreservesTransitive(s: Space, t: Space, u: Space)
    requires Preserves(s, t) && Preserves(t, u)
    ensures Preserves(s, u)
  {
    KeepsTransitive(s, t, u);
  }

  lemma PageSplit(v: nat)
    ensures v == Page(v) * PAGE_SIZE + Offset(v)
  {
  }

  lemma SameAddress(u: nat, v: nat)
    requires Page(u) == Page(v) && Offset(u) == Offset(v)
    ensures u == v
  {
    PageSplit(u);
    PageSplit(v);
  }

  lemma AlignedSum(f: nat, o: nat, g: nat, o': nat)
    requires f % PAGE_SIZE == 0 && g % PAGE_SIZE == 0 && o < PAGE_SIZE && o' < PAGE_SIZE
    requires f + o == g + o'
    ensures f == g && o == o'
  {
  }

  /** Different virtual addresses of backed pages are different physical bytes. */
  lemma PhysInjective(s: Space, u: nat, v: nat)
    requires s.Sound() && s.Backed(Page(u)) && s.Backed(Page(v)) && s.Phys(u) == s.Phys(v)
    ensures u == v
  {
    AlignedSum(s.table[Page(u)], Offset(u), s.table[Page(v)], Offset(v));
    SameAddress(u, v);
  }

  /** A store changes the byte at its own address and no other byte that can be seen. */
  lemma StoreReadBack(s: Space, v: nat, b: Byte)
    requires s.Sound()
    ensures var t := s.Store(v, b);
            && Keeps(s, t) && t.table == s.table
            && (s.Backed(Page(v)) ==> t.At(v) == b)
            && forall u: nat :: s.Backed(Page(u)) && u != v ==> t.Backed(Page(u)) && t.At(u) == s.At(u)
  {
    var t := s.Store(v, b);
    if s.Backed(Page(v)) {
      var f := s.table[Page(v)];
      assert forall p :: t.Backed(p) <==> s.Backed(p);
      assert t.Sound();
      forall u: nat | s.Backed(Page(u)) && u != v ensures t.At(u) == s.At(u) {
        if s.Phys(u) == s.Phys(v) { PhysInjective(s, u, v); }
      }
      forall a | 0 <= a < |s.ram| && s.Foreign(a) ensures t.ram[a] == s.ram[a] {
        assert FrameBase(s.Phys(v)) == f;
      }
    }
  }

  /** The two pages lead to the same frame. */
  predicate SameFrame(s: Space, p: nat, q: nat) {
    p in s.table && q in s.table && s.table[p] == s.table[q]
  }

  /** The address `w` leads to the physical byte `a` of the allocator's memory. */
  predicate Reaches(s: Space, w: nat, a: nat) {
    s.Seen(Page(w)) && s.Phys(w) == a
  }

  /** Two addresses lead to one byte exactly if they have the same offset in pages that lead to one frame. */
  lemma ReachesIff(s: Space, w: nat, u: nat)
    requires s.Sound() && s.Seen(Page(u))
    ensures Reaches(s, w, s.Phys(u)) <==> SameFrame(s, Page(w), Page(u)) && Offset(w) == Offset(u)
  {
    if s.Seen(Page(w)) && s.Phys(w) == s.Phys(u) {
      AlignedSum(s.table[Page(w)], Offset(w), s.table[Page(u)], Offset(u));
    }
  }

  /** A kernel store changes every byte that leads to the same place, and no other. */
  lemma KernelStoreReadBack(s: Space, w: nat, b: Byte)
    requires s.Sound()
    ensures var t := s.KernelStore(w, b);
            && Keeps(s, t) && t.table == s.table
            && forall u: nat :: s.Seen(Page(u)) ==>
                 t.Seen(Page(u)) && t.At(u) == if Reaches(s, w, s.Phys(u)) then b else s.At(u)
  {
    var t := s.KernelStore(w, b);
    if s.Seen(Page(w)) {
      assert forall p :: t.Backed(p) <==> s.Backed(p);
      assert t.Sound();
      forall a | 0 <= a < |s.ram| && s.Foreign(a) ensures t.ram[a] == s.ram[a] {
        assert FrameBase(s.Phys(w)) == s.table[Page(w)];
      }
    }
  }
}
