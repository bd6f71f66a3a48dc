/** The kernel's memory services: frame allocation, `map_page`, `grant_frame`, the user stack and the
    framebuffer mapping, over one physical memory and one page table. */
module Kernel {
  import opened Words
  import opened Frames
  import opened Memory

  /** What an allocated frame is used for. */
  datatype Role = Backs(page: nat) | PageTable | Unused

  const USER_LIMIT: nat := 0x0000_7FFF_FFFF_F000
  const STACK_TOP: nat := 0x0000_7FFF_FFFF_0000
  const WORD_MAX: nat := U64 - 1

  /** `is_safe_user_ptr`, with its saturating addition. */
  predicate IsSafeUserPtr(vaddr: nat, size: nat) {
    var end := if vaddr + size < U64 then vaddr + size else U64 - 1;
    end < USER_LIMIT && vaddr < end
  }

  /** For 64-bit arguments: a range that is not empty and ends below the limit. */
  lemma SafeUserPtrIff(vaddr: nat, size: nat)
    requires vaddr < U64 && size < U64
    ensures IsSafeUserPtr(vaddr, size) <==> size > 0 && vaddr + size < 0x7FFF_FFFF_F000
  {
  }

  /** A 64-bit address whose upper bits repeat bit 47. */
  predicate Canonical(v: nat) {
    v < 0x8000_0000_0000 || U64 - 0x8000_0000_0000 <= v < U64
  }

  /** The upper 17 bits of a canonical address are all clear or all set. */
  lemma CanonicalIff(v: nat)
    requires v < U64
    ensures Canonical(v) <==> v / 0x8000_0000_0000 == 0 || v / 0x8000_0000_0000 == 0x1_FFFF
  {
  }

  /** Physical addresses have 52 bits. */
  const PHYS_LIMIT: nat := 0x10_0000_0000_0000

  /** How a kernel service ends: normally, or with a panic for lack of memory or on a bad address. */
  datatype Outcome = Done | OutOfMemory | Panicked

  datatype SysResult = Value(v: nat) | Halt

  function AddWrap(v: nat, k: nat): (w: nat)
    ensures w < U64
  {
    (v + k) % U64
  }

  /** How far `u` lies after `v`, around the end of the address space. */
  function Dist(v: nat, u: nat): nat
    requires v < U64 && u < U64
  {
    if v <= u then u - v else u + U64 - v
  }

  /** Every handed-out frame has exactly one role: it backs the one user page that the page table maps
      to it, it is a page table, or it is unused. */
  ghost predicate OneRole(s: Space, handed: nat, roles: map<nat, Role>) {
    && handed <= |s.all| && Distinct(s.all)
    && (forall f :: f in roles <==> f in s.all[..handed])
    && (forall p :: s.Backed(p) ==> s.table[p] in roles && roles[s.table[p]] == Backs(p))
    && (forall f :: f in roles && roles[f].Backs? ==> s.Backed(roles[f].page) && s.table[roles[f].page] == f)
    && (forall f :: f in s.all ==> f % PAGE_SIZE == 0 && f + PAGE_SIZE <= |s.ram| && f !in s.bootTables && f !in s.devices)
    && s.boot <= s.table.Keys
  }

  lemma OneRoleIsSound(s: Space, handed: nat, roles: map<nat, Role>)
    requires OneRole(s, handed, roles)
    ensures s.Sound()
  {
  }

  lemma HandedFits(s: Space, handed: nat, roles: map<nat, Role>)
    requires OneRole(s, handed, roles)
    ensures handed <= |s.all|
  {
  }

  lemma NextFrameIsNew(s: Space, handed: nat, roles: map<nat, Role>)
    requires OneRole(s, handed, roles) && handed < |s.all|
    ensures s.all[handed] !in roles
  {
  }

  lemma RoleFacts(s: Space, handed: nat, roles: map<nat, Role>, f: nat)
    requires OneRole(s, handed, roles) && (f in roles || f in s.all)
    ensures f in s.all && f % PAGE_SIZE == 0 && f + PAGE_SIZE <= |s.ram|
  {
  }

  lemma BootPagesAreMapped(s: Space, handed: nat, roles: map<nat, Role>)
    requires OneRole(s, handed, roles)
    ensures s.boot <= s.table.Keys
  {
  }

  lemma DevicesAreNotFrames(s: Space, handed: nat, roles: map<nat, Role>)
    requires OneRole(s, handed, roles)
    ensures forall f :: f in s.devices ==> f !in s.all
  {
  }

  lemma OneRoleAllocate(s: Space, handed: nat, roles: map<nat, Role>, role: Role)
    requires OneRole(s, handed, roles) && handed < |s.all| && !role.Backs?
    ensures OneRole(s, handed + 1, roles[s.all[handed] := role])
  {
    var f := s.all[handed];
    NextFrameIsNew(s, handed, roles);
    assert s.all[..handed + 1] == s.all[..handed] + [f];
  }

  lemma OneRoleMap(s: Space, handed: nat, roles: map<nat, Role>, page: nat, frame: nat)
    requires OneRole(s, handed, roles) && page !in s.table
    requires frame in roles && roles[frame] == Unused
    ensures OneRole(s.(table := s.table[page := frame]), handed, roles[frame := Backs(page)])
  {
    var t := s.(table := s.table[page := frame]);
    assert frame in s.all;
    assert forall p :: t.Backed(p) <==> s.Backed(p) || p == page;
  }

  lemma OneRoleMapDevice(s: Space, handed: nat, roles: map<nat, Role>, page: nat, frame: nat)
    requires OneRole(s, handed, roles) && page !in s.table && frame !in s.all
    ensures OneRole(s.(table := s.table[page := frame]), handed, roles)
  {
    var t := s.(table := s.table[page := frame]);
    assert forall p :: t.Backed(p) <==> s.Backed(p);
  }

  lemma OneRoleRetag(s: Space, handed: nat, roles: map<nat, Role>, f: nat, ram: seq<Byte>)
    requires OneRole(s, handed, roles) && f in roles && roles[f].Unused? && |ram| == |s.ram|
    ensures OneRole(s.(ram := ram), handed, roles[f := PageTable])
  {
    var t := s.(ram := ram);
    assert forall p :: t.Backed(p) <==> s.Backed(p);
  }

  lemma ClearedFrame(ram: seq<Byte>, f: nat, cleared: seq<Byte>)
    requires f % PAGE_SIZE == 0 && f + PAGE_SIZE <= |ram|
    requires cleared == ram[..f] + seq(PAGE_SIZE, i => 0) + ram[f + PAGE_SIZE..]
    ensures |cleared| == |ram|
    ensures forall a :: 0 <= a < |ram| && cleared[a] != ram[a] ==> FrameBase(a) == f
  {
    forall a | 0 <= a < |ram| && cleared[a] != ram[a] ensures FrameBase(a) == f {
      assert f <= a < f + PAGE_SIZE;
    }
  }

  /** Only bytes of page-table frames differ. */
  ghost predicate OnlyTablesChange(s: Space, t: Space, roles: map<nat, Role>) {
    && |t.ram| == |s.ram|
    && forall a :: 0 <= a < |s.ram| && t.ram[a] != s.ram[a] ==>
         FrameBase(a) in s.bootTables || (FrameBase(a) in roles && roles[FrameBase(a)].PageTable?)
  }

  /** The table got at most the one new entry, and the frames kept their roles. */
  ghost predicate Extends(s: Space, t: Space) {
    && t.all == s.all && t.boot == s.boot && t.bootTables == s.bootTables && t.devices == s.devices
    && (forall p :: p in s.table ==> p in t.table && t.table[p] == s.table[p])
  }

  /** Writing page tables cannot be seen through any user page. */
  lemma TablesAreInvisible(s: Space, t: Space, n: nat, roles: map<nat, Role>, n': nat, roles': map<nat, Role>)
    requires OneRole(s, n, roles) && OneRole(t, n', roles') && Extends(s, t) && OnlyTablesChange(s, t, roles')
    ensures Preserves(s, t)
  {
    hide OneRole;
    OneRoleIsSound(s, n, roles);
    OneRoleIsSound(t, n', roles');
    forall v: nat | s.Backed(Page(v)) ensures t.Backed(Page(v)) && t.At(v) == s.At(v) {
      BackingFrame(t, n', roles', Page(v));
      SeenByteKept(s, t, roles', v);
    }
    forall a | 0 <= a < |s.ram| && s.Foreign(a) ensures t.ram[a] == s.ram[a] {
      ForeignByteKept(s, t, n', roles', a);
    }
  }

  lemma BackingFrame(s: Space, n: nat, roles: map<nat, Role>, p: nat)
    requires OneRole(s, n, roles) && s.Backed(p)
    ensures s.table[p] in roles && roles[s.table[p]] == Backs(p) && s.table[p] !in s.bootTables
  {
  }

  lemma SeenByteKept(s: Space, t: Space, roles: map<nat, Role>, v: nat)
    requires s.Sound() && t.Sound() && Extends(s, t) && OnlyTablesChange(s, t, roles)
    requires s.Backed(Page(v)) && s.table[Page(v)] in roles && roles[s.table[Page(v)]].Backs?
    requires s.table[Page(v)] !in s.bootTables
    ensures t.Backed(Page(v)) && t.At(v) == s.At(v)
  {
    assert FrameBase(s.Phys(v)) == s.table[Page(v)];
  }

  lemma ForeignByteKept(s: Space, t: Space, n: nat, roles: map<nat, Role>, a: nat)
    requires OneRole(t, n, roles) && Extends(s, t) && OnlyTablesChange(s, t, roles)
    requires a < |s.ram| && s.Foreign(a)
    ensures t.ram[a] == s.ram[a]
  {
    assert FrameBase(a) !in t.all[..n];
  }

  lemma PreservesReflexive(s: Space, n: nat, roles: map<nat, Role>)
    requires OneRole(s, n, roles)
    ensures Preserves(s, s)
  {
  }

  lemma PreservesPages(s: Space, t: Space)
    requires Preserves(s, t)
    ensures forall p :: p in s.table ==> p in t.table && t.table[p] == s.table[p]
    ensures forall p :: s.Backed(p) ==> t.Backed(p)
  {
  }

  /** The roles after `page` was mapped to `frame`. */
  function Mapped(s: Space, roles: map<nat, Role>, page: nat, frame: nat): map<nat, Role> {
    if frame in s.all then roles[frame := Backs(page)] else roles
  }

  /** A new mapping of an unused frame, or of a device, keeps one role per frame and all seen bytes. */
  lemma NewMapping(s: Space, n: nat, roles: map<nat, Role>, page: nat, frame: nat)
    requires OneRole(s, n, roles) && page !in s.table
    requires frame in s.all ==> frame in roles && roles[frame] == Unused
    ensures var t := s.(table := s.table[page := frame]);
            OneRole(t, n, Mapped(s, roles, page, frame)) && Preserves(s, t)
  {
    var t := s.(table := s.table[page := frame]);
    if frame in s.all {
      OneRoleMap(s, n, roles, page, frame);
    } else {
      OneRoleMapDevice(s, n, roles, page, frame);
    }
    TablesAreInvisible(s, t, n, roles, n, Mapped(s, roles, page, frame));
  }

  /** `t` is `s` after the bytes `data` were stored from `v` on. */
  ghost predicate Stored(s: Space, t: Space, v: nat, data: seq<Byte>)
    requires v < U64
  {
    && Keeps(s, t) && t.table == s.table
    && forall u: nat :: u < U64 && s.Backed(Page(u)) ==>
         t.Backed(Page(u)) && t.At(u) == if Dist(v, u) < |data| then data[Dist(v, u)] else s.At(u)
  }

  lemma StoredNone(s: Space, n: nat, roles: map<nat, Role>, v: nat)
    requires OneRole(s, n, roles) && v < U64
    ensures Stored(s, s, v, [])
  {
  }

  lemma DistAddWrap(v: nat, k: nat)
    requires v < U64 && k < U64
    ensures AddWrap(v, k) < U64 && Dist(v, AddWrap(v, k)) == k
    ensures forall u: nat :: u < U64 && Dist(v, u) == k ==> u == AddWrap(v, k)
  {
  }

  /** One more byte extends the stored run. */
  lemma StoredOneMore(s: Space, t: Space, v: nat, data: seq<Byte>, b: Byte)
    requires v < U64 && |data| < U64 && Stored(s, t, v, data)
    ensures Stored(s, t.Store(AddWrap(v, |data|), b), v, data + [b])
  {
    var w, more := AddWrap(v, |data|), data + [b];
    DistAddWrap(v, |data|);
    StoreReadBack(t, w, b);
    var r := t.Store(w, b);
    KeepsTransitive(s, t, r);
    forall u: nat | u < U64 && s.Backed(Page(u))
      ensures r.Backed(Page(u)) && r.At(u) == if Dist(v, u) < |more| then more[Dist(v, u)] else s.At(u)
    {
      assert t.Backed(Page(u));
    }
  }

  lemma StoreKeepsRoles(s: Space, n: nat, roles: map<nat, Role>, v: nat, b: Byte)
    requires OneRole(s, n, roles)
    ensures s.Sound() && OneRole(s.Store(v, b), n, roles) && |s.Store(v, b).ram| == |s.ram|
  {
    OneRoleIsSound(s, n, roles);
    assert forall p :: s.Store(v, b).Backed(p) <==> s.Backed(p);
  }

  // ---- Stores of the kernel ----

  /** How a run of kernel stores ends: it is complete, or its next byte has no page, or that byte is astray: it would go
      through one of the bootloader's mappings into a page table or outside the allocator's frames. The kernel's code and
      the page tables are not part of the memory modelled, so the model ends there, before that byte. */
  datatype KernelStores = Complete | NoPage | Astray

  /** The page is one of the bootloader's, and leads to a page table or outside the allocator's frames. */
  predicate LeadsAstray(s: Space, roles: map<nat, Role>, p: nat) {
    p in s.boot && p in s.table && (s.table[p] !in s.all || (s.table[p] in roles && roles[s.table[p]].PageTable?))
  }

  /** The last of the first `n` addresses from `v` on that leads to the physical byte `a`, as its number, or -1. */
  ghost function LastHit(s: Space, v: nat, n: nat, a: nat): (j: int)
    ensures -1 <= j < n
  {
    if n == 0 then -1 else if Reaches(s, AddWrap(v, n - 1), a) then n - 1 else LastHit(s, v, n - 1, a)
  }

  lemma {:induction false} LastHitFacts(s: Space, v: nat, n: nat, a: nat)
    ensures var j := LastHit(s, v, n, a);
            && (j >= 0 ==> Reaches(s, AddWrap(v, j), a))
            && forall i: nat :: j < i < n ==> !Reaches(s, AddWrap(v, i), a)
  {
    hide Reaches, AddWrap;
    if n > 0 && !Reaches(s, AddWrap(v, n - 1), a) {
      LastHitFacts(s, v, n - 1, a);
    }
  }

  /** `t` is `s` after the kernel stored the bytes `data` from `v` on: each byte of the allocator's memory is what was
      stored last through any address that leads to it. */
  ghost predicate KernelStored(s: Space, t: Space, v: nat, data: seq<Byte>)
    requires v < U64
  {
    && Keeps(s, t) && t.table == s.table
    && forall u: nat :: s.Seen(Page(u)) ==>
         var j := LastHit(s, v, |data|, s.Phys(u));
         t.Seen(Page(u)) && t.At(u) == if j >= 0 then data[j] else s.At(u)
  }

  lemma KernelStoredNone(s: Space, n: nat, roles: map<nat, Role>, v: nat)
    requires OneRole(s, n, roles) && v < U64
    ensures KernelStored(s, s, v, [])
  {
  }

  lemma KernelStoredOneMore(s: Space, t: Space, v: nat, data: seq<Byte>, b: Byte)
    requires v < U64 && KernelStored(s, t, v, data)
    ensures KernelStored(s, t.KernelStore(AddWrap(v, |data|), b), v, data + [b])
  {
    var w, more := AddWrap(v, |data|), data + [b];
    KernelStoreReadBack(t, w, b);
    var r := t.KernelStore(w, b);
    KeepsTransitive(s, t, r);
    hide Reaches, Keeps, AddWrap, Page, Offset;
    forall u: nat | s.Seen(Page(u))
      ensures var j := LastHit(s, v, |more|, s.Phys(u));
              r.Seen(Page(u)) && r.At(u) == if j >= 0 then more[j] else s.At(u)
    {
      assert t.Seen(Page(u)) && t.Phys(u) == s.Phys(u);
      SameReach(s, t, w, s.Phys(u));
    }
  }

  lemma SameReach(s: Space, t: Space, w: nat, a: nat)
    requires t.table == s.table && t.all == s.all
    ensures Reaches(t, w, a) == Reaches(s, w, a)
  {
  }

  lemma KernelStoreKeepsRoles(s: Space, n: nat, roles: map<nat, Role>, v: nat, b: Byte)
    requires OneRole(s, n, roles)
    ensures s.Sound() && OneRole(s.KernelStore(v, b), n, roles) && |s.KernelStore(v, b).ram| == |s.ram|
  {
    OneRoleIsSound(s, n, roles);
    assert forall p :: s.KernelStore(v, b).Backed(p) <==> s.Backed(p);
  }

  /** The virtual page that page number `i` of a device goes to. */
  function DevicePage(vaddr: nat, i: nat): nat { Page(vaddr + i * PAGE_SIZE) }

  /** Page number `i` of a device has an address that the page-table crate rejects. */
  predicate BadPage(phys: nat, vaddr: nat, i: nat) {
    phys + i * PAGE_SIZE >= PHYS_LIMIT || !Canonical(vaddr + i * PAGE_SIZE)
  }

  lemma DevicePageStep(vaddr: nat, i: nat)
    ensures DevicePage(vaddr, i) == Page(vaddr) + i
  {
  }

  class Kernel {
    const allocator: FrameAllocator
    const boot: set<nat>
    const bootTables: set<nat>
    const devices: set<nat>
    var table: map<nat, nat>
    var ram: seq<Byte>
    /** What each handed-out frame is used for. The kernel does not record this; the machine knows it from its tables. */
    var roles: map<nat, Role>
    /** How many times `map_to` reported an error on a page that was not mapped. */
    ghost var mapErrors: nat

    function S(): Space
      reads this
    {
      Space(AllFrames(allocator.memoryMap), boot, bootTables, devices, table, ram)
    }

    ghost predicate Valid()
      reads this, allocator
    {
      && allocator.Valid() && NoOverflow(allocator.memoryMap) && |ram| <= PHYS_LIMIT
      && OneRole(S(), allocator.handed, roles)
    }

    /** The state at the start of `memory::frame::init`: the bootloader's mappings and no frame handed out. */
    constructor (m: MemoryMap, tables: set<nat>, devices: set<nat>, mappings: map<nat, nat>, memory: seq<Byte>)
      requires NoOverflow(m) && Disjoint(m) && |memory| <= PHYS_LIMIT
      requires forall f :: f in AllFrames(m) ==> f + PAGE_SIZE <= |memory| && f !in tables && f !in devices
      ensures Valid() && roles == map[] && table == mappings && ram == memory
      ensures allocator.memoryMap == m && boot == mappings.Keys && bootTables == tables && this.devices == devices
      ensures fresh(allocator)
    {
      allocator := new FrameAllocator(m);
      boot, bootTables, table, ram := mappings.Keys, tables, mappings, memory;
      this.devices := devices;
      roles, mapErrors := map[], 0;
      new;
      AllFramesDistinct(m);
      forall f | f in AllFrames(m) ensures f % PAGE_SIZE == 0 { AllFramesMember(m, f); }
    }

    method AllocateFrame() returns (res: Allocation)
      requires Valid()
      modifies this`roles, allocator
      ensures Valid() && !res.Panic?
      ensures res.Frame? ==>
        && allocator.handed == old(allocator.handed) + 1 && res.addr !in old(roles)
        && res.addr in S().all && roles == old(roles)[res.addr := Unused]
      ensures res.Exhausted? ==> roles == old(roles) && allocator.handed == old(allocator.handed) == |S().all|
    {
      hide OneRole, AllFrames, NoOverflow, CursorAt;
      ghost var s, n := S(), allocator.handed;
      res := allocator.AllocateFrameRaw();
      if res.Frame? {
        NextFrameIsNew(s, n, roles);
        OneRoleAllocate(s, n, roles, Unused);
        roles := roles[res.addr := Unused];
      }
    }

    /** A frame for a lower-level page table, cleared before use. */
    method AllocateTable() returns (res: Allocation)
      requires Valid()
      modifies this`roles, this`ram, allocator
      ensures Valid() && !res.Panic? && Preserves(old(S()), S())
      ensures allocator.handed >= old(allocator.handed)
      ensures res.Frame? ==> res.addr !in old(roles) && roles == old(roles)[res.addr := PageTable]
      ensures res.Exhausted? ==> roles == old(roles)
    {
      hide OneRole, AllFrames, NoOverflow, CursorAt, Preserves;
      ghost var s, n, r := S(), allocator.handed, roles;
      res := AllocateFrame();
      if res.Frame? {
        RoleFacts(S(), allocator.handed, roles, res.addr);
        ghost var ram0, roles0 := ram, roles;
        ram := ram[..res.addr] + seq(PAGE_SIZE, i => 0) + ram[res.addr + PAGE_SIZE..];
        roles := roles[res.addr := PageTable];
        ClearedFrame(ram0, res.addr, ram);
        OneRoleRetag(s, allocator.handed, roles0, res.addr, ram);
      }
      TablesAreInvisible(s, S(), n, r, allocator.handed, roles);
    }

    /** The page-table code allocates some tables, and may fail. */
    method AllocateTables() returns (ok: bool)
      requires Valid()
      modifies this`ram, this`roles, allocator
      ensures Valid() && Preserves(old(S()), S()) && allocator.handed >= old(allocator.handed)
      ensures forall f :: f in old(roles) ==> f in roles && roles[f] == old(roles)[f]
      ensures forall f :: f in roles && f !in old(roles) ==> roles[f].PageTable?
    {
      hide OneRole, AllFrames, NoOverflow, CursorAt, Preserves;
      ghost var s, r := S(), roles;
      PreservesReflexive(s, allocator.handed, roles);
      var levels: nat := *;
      ok := true;
      var i := 0;
      while ok && i < levels
        invariant Valid() && Preserves(s, S()) && allocator.handed >= old(allocator.handed)
        invariant forall f :: f in r ==> f in roles && roles[f] == r[f]
        invariant forall f :: f in roles && f !in r ==> roles[f].PageTable?
        decreases levels - i, ok
      {
        ghost var t := S();
        var res := AllocateTable();
        PreservesTransitive(s, t, S());
        var healthy: bool := *;
        ok := res.Frame? && healthy;
        i := i + 1;
      }
    }

    /** The page-table code of the `x86_64` crate, as a contract: it may take frames for lower-level
        tables, it never touches an existing mapping, and it either adds the one new mapping or fails. */
    method MapTo(page: nat, frame: nat) returns (ok: bool)
      requires Valid() && (frame in S().all ==> frame in roles && roles[frame] == Unused)
      modifies this`table, this`ram, this`roles, this`mapErrors, allocator
      ensures Valid() && Preserves(old(S()), S())
      ensures ok ==> page !in old(table)
      ensures table == if ok then old(table)[page := frame] else old(table)
      ensures mapErrors == old(mapErrors) + if !ok && page !in old(table) then 1 else 0
      ensures allocator.handed >= old(allocator.handed)
      ensures forall f :: f in old(roles) && f != frame ==> f in roles && roles[f] == old(roles)[f]
      ensures frame in old(roles) ==> frame in roles && roles[frame] == if ok then Backs(page) else Unused
      ensures forall f :: f in roles && f !in old(roles) ==> roles[f].PageTable?
    {
      hide OneRole, AllFrames, NoOverflow, CursorAt, Preserves;
      ghost var s, r := S(), roles;
      if frame in roles { RoleFacts(s, allocator.handed, roles, frame); }
      PreservesReflexive(s, allocator.handed, roles);
      ok := page !in table;
      if ok {
        ok := AllocateTables();
      }
      if ok {
        ghost var t := S();
        NewMapping(t, allocator.handed, roles, page, frame);
        roles := Mapped(S(), roles, page, frame);
        table := table[page := frame];
        PreservesTransitive(s, t, S());
      } else if page !in table {
        mapErrors := mapErrors + 1;
      }
    }

    method MapPage(phys: nat, virt: nat) returns (r: Outcome)
      requires Valid() && (FrameBase(phys) in S().all ==> FrameBase(phys) in roles && roles[FrameBase(phys)] == Unused)
      modifies this`table, this`ram, this`roles, this`mapErrors, allocator
      ensures Valid() && Preserves(old(S()), S()) && !r.OutOfMemory?
      ensures r.Panicked? <==> phys >= PHYS_LIMIT || !Canonical(virt)
      ensures table == old(table) || (Page(virt) !in old(table) && table == old(table)[Page(virt) := FrameBase(phys)])
      ensures r.Done? && mapErrors == old(mapErrors) ==> Page(virt) in table
      ensures r.Panicked? ==> table == old(table)
      ensures mapErrors >= old(mapErrors) && allocator.handed >= old(allocator.handed)
    {
      hide OneRole, AllFrames, NoOverflow, CursorAt, Preserves;
      PreservesReflexive(S(), allocator.handed, roles);
      if phys >= PHYS_LIMIT || !Canonical(virt) {
        return Panicked;
      }
      var ok := MapTo(Page(virt), FrameBase(phys));
      return Done;
    }

    /** One frame of memory for the page of `virt`: allocate, then `map_page`. */
    method MapFreshFrame(virt: nat) returns (r: Outcome)
      requires Valid()
      modifies this`table, this`ram, this`roles, this`mapErrors, allocator
      ensures Valid() && Preserves(old(S()), S())
      ensures Page(virt) in old(table) ==> table == old(table)
      ensures forall p :: p in table ==> p in old(table) || p == Page(virt)
      ensures Page(virt) in table && Page(virt) !in old(table) ==> S().Backed(Page(virt))
      ensures r.Done? && mapErrors == old(mapErrors) ==> Page(virt) in table
      ensures !r.Done? ==> table == old(table)
      ensures r.Panicked? ==> !Canonical(virt)
      ensures r.OutOfMemory? ==> allocator.handed == |S().all|
      ensures mapErrors >= old(mapErrors) && allocator.handed >= old(allocator.handed)
    {
      hide OneRole, AllFrames, NoOverflow, CursorAt, Preserves;
      PreservesReflexive(S(), allocator.handed, roles);
      var frame := AllocateFrame();
      if !frame.Frame? {
        return OutOfMemory;
      }
      RoleFacts(S(), allocator.handed, roles, frame.addr);
      assert FrameBase(frame.addr) == frame.addr;
      if Page(virt) !in table { BootPagesAreMapped(S(), allocator.handed, roles); }
      r := MapPage(frame.addr, virt);
    }

    /** `grant_frame`: only the genesis token, with id 0, was ever sealed. */
    method GrantFrame(tokenId: nat, vaddr: nat) returns (r: SysResult)
      requires Valid()
      modifies this`table, this`ram, this`roles, this`mapErrors, allocator
      ensures Valid() && Preserves(old(S()), S())
      ensures Page(vaddr) in old(table) || tokenId != 0 ==> table == old(table)
      ensures forall p :: p in table ==> p in old(table) || p == Page(vaddr)
      ensures Page(vaddr) in table && Page(vaddr) !in old(table) ==> S().Backed(Page(vaddr))
      ensures tokenId != 0 ==> r == Value(0) && S() == old(S()) && roles == old(roles)
      ensures tokenId != 0 ==> allocator.handed == old(allocator.handed) && mapErrors == old(mapErrors)
      ensures tokenId == 0 && r.Value? ==> r.v == vaddr
      ensures tokenId == 0 && r.Value? && mapErrors == old(mapErrors) ==> Page(vaddr) in table
      ensures r.Halt? ==> !Canonical(vaddr) || allocator.handed == |S().all|
      ensures mapErrors >= old(mapErrors) && allocator.handed >= old(allocator.handed)
    {
      hide OneRole, AllFrames, NoOverflow, CursorAt, Preserves;
      if tokenId != 0 {
        PreservesReflexive(S(), allocator.handed, roles);
        return Value(0);
      }
      var o := MapFreshFrame(vaddr);
      if !o.Done? {
        return Halt;
      }
      return Value(vaddr);
    }

    /** The `SYS_GRANT_SHARED_MEMORY` system call. */
    method SysGrant(tokenId: nat, vaddr: nat) returns (r: SysResult)
      requires Valid()
      modifies this`table, this`ram, this`roles, this`mapErrors, allocator
      ensures Valid() && Preserves(old(S()), S())
      ensures !IsSafeUserPtr(vaddr, PAGE_SIZE) ==> r == Value(0xFFFF_FFFF_FFFF_FFFF)
      ensures IsSafeUserPtr(vaddr, PAGE_SIZE) && tokenId != 0 ==> r == Value(0)
      ensures !IsSafeUserPtr(vaddr, PAGE_SIZE) || tokenId != 0 ==>
        S() == old(S()) && roles == old(roles) && allocator.handed == old(allocator.handed) && mapErrors == old(mapErrors)
      ensures IsSafeUserPtr(vaddr, PAGE_SIZE) && tokenId == 0 && r.Value? ==> r.v == vaddr
      ensures Page(vaddr) in old(table) ==> table == old(table)
      ensures forall p :: p in table ==> p in old(table) || p == Page(vaddr)
      ensures Page(vaddr) in table && Page(vaddr) !in old(table) ==> S().Backed(Page(vaddr))
      ensures IsSafeUserPtr(vaddr, PAGE_SIZE) && tokenId == 0 && r.Value? && mapErrors == old(mapErrors) ==>
                Page(vaddr) in table
      ensures r.Halt? ==> allocator.handed == |S().all|
      ensures mapErrors >= old(mapErrors) && allocator.handed >= old(allocator.handed)
    {
      hide OneRole, AllFrames, NoOverflow, CursorAt, Preserves;
      if !IsSafeUserPtr(vaddr, PAGE_SIZE) {
        PreservesReflexive(S(), allocator.handed, roles);
        return Value(WORD_MAX);
      }
      r := GrantFrame(tokenId, vaddr);
    }

    /** The 32 pages of the first user stack, below `STACK_TOP`. */
    method BuildUserStack() returns (r: Outcome)
      requires Valid()
      modifies this`table, this`ram, this`roles, this`mapErrors, allocator
      ensures Valid() && Preserves(old(S()), S()) && !r.Panicked?
      ensures mapErrors >= old(mapErrors)
      ensures r.OutOfMemory? ==> allocator.handed == |S().all|
      ensures r.Done? && mapErrors == old(mapErrors) ==>
        forall v: nat :: 0x7FFF_FFFD_0000 <= v < 0x7FFF_FFFF_0000 ==> Page(v) in table
      ensures forall p :: p in table ==>
        p in old(table) || (S().Backed(p) && Page(0x7FFF_FFFD_0000) <= p < Page(0x7FFF_FFFF_0000))
    {
      hide OneRole, AllFrames, NoOverflow, CursorAt, Preserves;
      ghost var s := S();
      PreservesReflexive(s, allocator.handed, roles);
      for i := 1 to 33
        invariant Valid() && Preserves(s, S()) && mapErrors >= old(mapErrors)
        invariant mapErrors == old(mapErrors) ==>
          forall p: nat :: Page(STACK_TOP) - i < p < Page(STACK_TOP) ==> p in table
        invariant forall p :: p in table ==>
          p in s.table || (S().Backed(p) && Page(STACK_TOP) - i < p < Page(STACK_TOP))
      {
        ghost var t := S();
        var virtPage := STACK_TOP - i * PAGE_SIZE;
        assert Page(virtPage) == Page(STACK_TOP) - i && Canonical(virtPage);
        r := MapFreshFrame(virtPage);
        PreservesTransitive(s, t, S());
        PreservesPages(t, S());
        if !r.Done? {
          return;
        }
      }
      return Done;
    }

    /** The mapping loop of `SYS_MAP_FRAMEBUFFER`: one page of the device after the other. */
    method MapDevice(phys: nat, vaddr: nat, pages: nat) returns (r: Outcome)
      requires Valid()
      requires forall i: nat :: i < pages ==> FrameBase(phys + i * PAGE_SIZE) in devices
      modifies this`table, this`ram, this`roles, this`mapErrors, allocator
      ensures Valid() && Preserves(old(S()), S()) && !r.OutOfMemory? && mapErrors >= old(mapErrors)
      ensures r.Panicked? <==> exists i: nat :: i < pages && BadPage(phys, vaddr, i)
      ensures r.Done? && mapErrors == old(mapErrors) ==> forall i: nat :: i < pages ==> DevicePage(vaddr, i) in table
      ensures forall p :: p in table && p !in old(table) ==>
        Page(vaddr) <= p < Page(vaddr) + pages && table[p] == FrameBase(phys + (p - Page(vaddr)) * PAGE_SIZE)
    {
      hide OneRole, AllFrames, NoOverflow, CursorAt, Preserves, Canonical;
      ghost var s := S();
      DevicesAreNotFrames(s, allocator.handed, roles);
      PreservesReflexive(s, allocator.handed, roles);
      for i := 0 to pages
        invariant Valid() && Preserves(s, S()) && mapErrors >= old(mapErrors)
        invariant mapErrors == old(mapErrors) ==> forall j: nat :: j < i ==> DevicePage(vaddr, j) in table
        invariant forall j: nat :: j < i ==> !BadPage(phys, vaddr, j)
        invariant forall p :: p in table && p !in s.table ==>
          Page(vaddr) <= p < Page(vaddr) + i && table[p] == FrameBase(phys + (p - Page(vaddr)) * PAGE_SIZE)
      {
        ghost var t := S();
        DevicePageStep(vaddr, i);
        r := MapPage(phys + i * PAGE_SIZE, vaddr + i * PAGE_SIZE);
        PreservesTransitive(s, t, S());
        PreservesPages(t, S());
        if !r.Done? {
          assert BadPage(phys, vaddr, i);
          return;
        }
      }
      return Done;
    }

    /** A run of the kernel's byte stores through the page table, the bootloader's mappings included. */
    method KernelStoreBytes(v: nat, data: seq<Byte>) returns (r: KernelStores, ghost n: nat)
      requires Valid() && v < U64
      modifies this`ram
      ensures Valid() && n <= |data| && KernelStored(old(S()), S(), v, data[..n])
      ensures r.Complete? ==> n == |data| && forall i: nat :: i < |data| ==> Page(AddWrap(v, i)) in table
      ensures r.NoPage? ==> n < |data| && Page(AddWrap(v, n)) !in table
      ensures r.Astray? ==> n < |data| && LeadsAstray(S(), roles, Page(AddWrap(v, n)))
    {
      hide OneRole, AllFrames, NoOverflow, CursorAt, KernelStored, Keeps;
      ghost var s := S();
      KernelStoredNone(s, allocator.handed, roles, v);
      assert data[..0] == [];
      var i := 0;
      while i < |data|
        invariant 0 <= i <= |data|
        invariant Valid() && KernelStored(s, S(), v, data[..i])
        invariant forall j: nat :: j < i ==> Page(AddWrap(v, j)) in table
      {
        var w := AddWrap(v, i);
        if Page(w) !in table {
          return NoPage, i;
        }
        if LeadsAstray(S(), roles, Page(w)) {
          return Astray, i;
        }
        KernelStoredOneMore(s, S(), v, data[..i], data[i]);
        assert data[..i] + [data[i]] == data[..i + 1];
        KernelStoreKeepsRoles(S(), allocator.handed, roles, w, data[i]);
        ram := S().KernelStore(w, data[i]).ram;
        i := i + 1;
      }
      return Complete, i;
    }

    /** A run of a user program's byte stores through the page table; it stops at the first fault. */
    method StoreBytes(v: nat, data: seq<Byte>) returns (ok: bool)
      requires Valid() && v < U64 && |data| <= U64
      modifies this`ram
      ensures Valid()
      ensures ok ==> Stored(old(S()), S(), v, data) && forall k :: 0 <= k < |data| ==> !S().Faults(AddWrap(v, k))
      ensures !ok ==> exists k :: 0 <= k < |data| && Stored(old(S()), S(), v, data[..k]) && S().Faults(AddWrap(v, k))
    {
      hide OneRole, AllFrames, NoOverflow, CursorAt, Stored, Keeps;
      ghost var s := S();
      StoredNone(s, allocator.handed, roles, v);
      assert data[..0] == [];
      var i := 0;
      while i < |data|
        invariant 0 <= i <= |data|
        invariant Valid() && Stored(s, S(), v, data[..i])
        invariant forall k :: 0 <= k < i ==> !S().Faults(AddWrap(v, k))
      {
        var w := AddWrap(v, i);
        if Page(w) !in table || Page(w) in boot {
          return false;
        }
        StoredOneMore(s, S(), v, data[..i], data[i]);
        assert data[..i] + [data[i]] == data[..i + 1];
        StoreKeepsRoles(S(), allocator.handed, roles, w, data[i]);
        ram := S().Store(w, data[i]).ram;
        i := i + 1;
      }
      assert data[..|data|] == data;
      return true;
    }

    /** A run of a user program's byte loads through the page table; it stops at the first page that is not memory. */
    method LoadBytes(v: nat, n: nat) returns (ok: bool, data: seq<Byte>)
      requires Valid() && v < U64
      ensures S().Sound()
      ensures ok ==> |data| == n && forall j: nat :: j < n ==>
        S().Backed(Page(AddWrap(v, j))) && data[j] == S().At(AddWrap(v, j))
      ensures !ok ==> exists j: nat :: j < n && !S().Backed(Page(AddWrap(v, j)))
    {
      hide OneRole, AllFrames, NoOverflow, CursorAt;
      OneRoleIsSound(S(), allocator.handed, roles);
      data := [];
      while |data| < n
        invariant |data| <= n
        invariant forall j: nat :: j < |data| ==>
          S().Backed(Page(AddWrap(v, j))) && data[j] == S().At(AddWrap(v, j))
      {
        var w := AddWrap(v, |data|);
        if !S().Backed(Page(w)) {
          return false, data;
        }
        data := data + [S().At(w)];
      }
      return true, data;
    }
  }
}
