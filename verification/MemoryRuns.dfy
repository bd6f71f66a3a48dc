/** Whole runs of the memory services, and the two ELF loaders compared with each other. */
module MemoryRuns {
  import opened Words
  import opened Frames
  import opened Memory
  import opened Kernel
  import opened Elf
  import KernelLoader
  import UserLoader

  /** `Probe` is the allocator's self-test at boot, which takes three frames and drops them. The image of a kernel load is
      what it finds at `base`, and only the proofs look at it; the image of a userland load is the slice it is called with. */
  datatype Op =
    | Probe
    | Grant(token: nat, vaddr: nat)
    | LoadImage(base: nat, image: seq<Byte>)
    | UserStack
    | Device(phys: nat, vaddr: nat, pages: nat)
    | UserStore(vaddr: nat, data: seq<Byte>)
    | UserLoad(src: nat, image: seq<Byte>)

  /** A device mapping is of device memory; addresses are words. */
  ghost predicate Sane(op: Op, devices: set<nat>) {
    match op
    case Device(phys, _, pages) => forall i: nat :: i < pages ==> FrameBase(phys + i * PAGE_SIZE) in devices
    case UserStore(vaddr, data) => vaddr < U64 && |data| <= U64
    case UserLoad(src, image) => src < U64 && src + |image| <= U64
    case _ => true
  }

  /** The operation may write the byte at `u`: a store to it, a kernel load of a segment that is written to its page, or a
      userland load of a segment around it. Nothing is said about a load of something that is not a well-formed
      image, or that overlaps its own segments. */
  ghost predicate Touches(op: Op, s: Space, u: nat) {
    match op
    case UserStore(vaddr, data) => vaddr < U64 && u < U64 && Dist(vaddr, u) < |data|
    case LoadImage(base, image) =>
      KernelLoader.Sourced(s, base, image) ==>
        !KernelLoader.Spared(s, image, Phentsize(image, 0), KernelLoader.RelocationOf(EntryPoint(image, 0)), Phnum(image, 0), Page(u))
    case UserLoad(src, image) => UserLoader.Safe(image, src) ==> !UserLoader.OutsideSegments(image, Phnum(image, 0), u)
    case _ => false
  }

  /** Every byte seen at `s` that the operation does not touch is seen at `t`. */
  ghost predicate Spares(op: Op, s: Space, t: Space) {
    && Keeps(s, t)
    && forall u: nat :: u < U64 && s.Backed(Page(u)) && !Touches(op, s, u) ==> t.Backed(Page(u)) && t.At(u) == s.At(u)
  }

  lemma PreservesSpares(op: Op, s: Space, t: Space)
    requires Preserves(s, t)
    ensures Spares(op, s, t)
  {
    hide Touches, Keeps, Page;
  }

  lemma StoreSpares(s: Space, t: Space, vaddr: nat, data: seq<Byte>, done: seq<Byte>)
    requires vaddr < U64 && |done| <= |data| && Stored(s, t, vaddr, done)
    ensures Spares(UserStore(vaddr, data), s, t)
  {
    hide Keeps, Page, Dist;
  }

  lemma LoadSpares(s: Space, t: Space, base: nat, img: seq<Byte>)
    requires Keeps(s, t)
    requires KernelLoader.Sourced(s, base, img) ==>
      KernelLoader.OnlySegments(s, t, img, Phentsize(img, 0), KernelLoader.RelocationOf(EntryPoint(img, 0)), Phnum(img, 0))
    ensures Spares(LoadImage(base, img), s, t)
  {
    hide Keeps, Page, KernelLoader.Outside, KernelLoader.Spared, KernelLoader.RelocationOf, KernelLoader.Sourced,
         Phentsize, Phnum, EntryPoint;
  }

  lemma UserLoadSpares(s: Space, t: Space, src: nat, img: seq<Byte>)
    requires Keeps(s, t)
    requires UserLoader.Safe(img, src) ==> UserLoader.UserFrame(s, t, img, Phnum(img, 0))
    ensures Spares(UserLoad(src, img), s, t)
  {
    hide Keeps, Page, UserLoader.OutsideSegments, UserLoader.Safe, Phnum, UserLoader.AskedBy;
  }

  /** A slice that was read byte by byte can be read as an image. */
  lemma ReadIsReadable(s: Space, src: nat, image: seq<Byte>)
    requires s.Sound() && src < U64 && src + |image| <= U64
    requires forall j: nat :: j < |image| ==> s.Backed(Page(AddWrap(src, j))) && image[j] == s.At(AddWrap(src, j))
    ensures UserLoader.Readable(s, src, image)
  {
    hide Page;
    forall j: nat | j < |image| ensures UserLoader.ReadableByte(s, src, image, j) {
      assert AddWrap(src, j) == src + j;
    }
  }

  /** The operation asks for page `p` to be mapped. */
  ghost predicate Wants(op: Op, p: nat) {
    match op
    case Grant(token, vaddr) => token == 0 && IsSafeUserPtr(vaddr, PAGE_SIZE) && p == Page(vaddr)
    case UserStack => Page(0x7FFF_FFFD_0000) <= p < Page(0x7FFF_FFFF_0000)
    case Device(_, vaddr, pages) => exists i: nat :: i < pages && p == DevicePage(vaddr, i)
    case _ => false
  }

  /** It may map page `p`: it asks for it, or loads a segment on it. Again nothing is said about a load of something that is
      not a well-formed image, or that overlaps its own segments. */
  ghost predicate MayMap(op: Op, s: Space, p: nat) {
    match op
    case LoadImage(base, image) =>
      KernelLoader.Sourced(s, base, image) ==>
        !KernelLoader.Outside(image, Phentsize(image, 0), KernelLoader.RelocationOf(EntryPoint(image, 0)), Phnum(image, 0), p)
    case UserLoad(src, image) => UserLoader.Safe(image, src) ==> UserLoader.AskedBy(image, Phnum(image, 0), p)
    case _ => Wants(op, p)
  }

  /** What the operation was called for, from `s` to `t`. */
  ghost predicate Served(op: Op, s: Space, t: Space)
    requires s.Sound() && t.Sound()
  {
    && (forall p: nat :: Wants(op, p) ==> p in t.table)
    && match op
       case UserStore(vaddr, data) => vaddr < U64 && Stored(s, t, vaddr, data)
       case LoadImage(base, image) =>
         KernelLoader.KernelLoadable(s, base, image) ==>
           KernelLoader.ImageOn(t, image, Phentsize(image, 0), KernelLoader.RelocationOf(EntryPoint(image, 0)), Phnum(image, 0))
       case UserLoad(src, image) =>
         UserLoader.UserLoadable(s, src, image) ==> UserLoader.Laid(t, image, Phnum(image, 0))
       case _ => true
  }

  /** Only pages that the operation may map became mapped. */
  ghost predicate MapsOnly(op: Op, s: Space, t: Space) {
    forall p: nat :: p in t.table ==> p in s.table || MayMap(op, s, p)
  }

  lemma LoadMapsOnly(s: Space, t: Space, base: nat, img: seq<Byte>)
    requires KernelLoader.Sourced(s, base, img) ==>
      KernelLoader.OnlySegments(s, t, img, Phentsize(img, 0), KernelLoader.RelocationOf(EntryPoint(img, 0)), Phnum(img, 0))
    ensures MapsOnly(LoadImage(base, img), s, t)
  {
    hide Keeps, Page, KernelLoader.Outside, KernelLoader.Spared, KernelLoader.RelocationOf, KernelLoader.Sourced,
         Phentsize, Phnum, EntryPoint;
  }

  lemma UserLoadMapsOnly(s: Space, t: Space, src: nat, img: seq<Byte>)
    requires UserLoader.Safe(img, src) ==> UserLoader.UserFrame(s, t, img, Phnum(img, 0))
    ensures MapsOnly(UserLoad(src, img), s, t)
  {
    hide Keeps, Page, UserLoader.OutsideSegments, UserLoader.Safe, Phnum, UserLoader.AskedBy;
  }

  lemma SameTable(op: Op, s: Space)
    ensures MapsOnly(op, s, s)
  {
  }

  lemma LoadIsServed(s: Space, t: Space, base: nat, img: seq<Byte>)
    requires s.Sound() && t.Sound()
    requires KernelLoader.KernelLoadable(s, base, img) ==>
      KernelLoader.ImageOn(t, img, Phentsize(img, 0), KernelLoader.RelocationOf(EntryPoint(img, 0)), Phnum(img, 0))
    ensures Served(LoadImage(base, img), s, t)
  {
    hide KernelLoader.KernelLoadable, KernelLoader.ImageOn, KernelLoader.RelocationOf, EntryPoint, Phentsize, Phnum;
  }

  lemma UserLoadIsServed(s: Space, t: Space, src: nat, img: seq<Byte>)
    requires s.Sound() && t.Sound() && (UserLoader.UserLoadable(s, src, img) ==> UserLoader.Laid(t, img, Phnum(img, 0)))
    ensures Served(UserLoad(src, img), s, t)
  {
    hide UserLoader.UserLoadable, UserLoader.Laid, Phnum;
  }

  lemma DeviceMapsOnly(op: Op, s: Space, t: Space)
    requires op.Device? && forall p :: p in t.table && p !in s.table ==> Page(op.vaddr) <= p < Page(op.vaddr) + op.pages
    ensures MapsOnly(op, s, t)
  {
    forall p: nat | p in t.table && p !in s.table ensures Wants(op, p) {
      assert p == DevicePage(op.vaddr, p - Page(op.vaddr));
    }
  }

  lemma DeviceIsServed(op: Op, s: Space, t: Space)
    requires op.Device? && s.Sound() && t.Sound()
    requires forall i: nat :: i < op.pages ==> DevicePage(op.vaddr, i) in t.table
    ensures Served(op, s, t)
  {
  }

  lemma GrantMapsOnly(op: Op, s: Space, t: Space)
    requires op.Grant? && forall p :: p in t.table ==> p in s.table || p == Page(op.vaddr)
    requires op.token != 0 || !IsSafeUserPtr(op.vaddr, PAGE_SIZE) ==> t.table == s.table
    ensures MapsOnly(op, s, t)
  {
  }

  lemma GrantIsServed(op: Op, s: Space, t: Space)
    requires op.Grant? && s.Sound() && t.Sound()
    requires op.token == 0 && IsSafeUserPtr(op.vaddr, PAGE_SIZE) ==> Page(op.vaddr) in t.table
    ensures Served(op, s, t)
  {
  }

  /** The self-test and stores map nothing. */
  lemma MapsNothing(op: Op, s: Space, t: Space)
    requires s.Sound() && t.Sound() && (op.Probe? || op.UserStore?) && t.table == s.table
    ensures MapsOnly(op, s, t)
    ensures op.Probe? || (op.vaddr < U64 && Stored(s, t, op.vaddr, op.data)) ==> Served(op, s, t)
  {
  }

  lemma StoredTable(s: Space, t: Space, v: nat, data: seq<Byte>)
    requires v < U64 && Stored(s, t, v, data)
    ensures t.table == s.table
  {
  }

  lemma StackMapsOnly(s: Space, t: Space)
    requires forall p :: p in t.table ==> p in s.table || Page(0x7FFF_FFFD_0000) <= p < Page(0x7FFF_FFFF_0000)
    ensures MapsOnly(UserStack, s, t)
  {
  }

  lemma StackIsServed(s: Space, t: Space)
    requires s.Sound() && t.Sound()
    requires forall v: nat :: 0x7FFF_FFFD_0000 <= v < 0x7FFF_FFFF_0000 ==> Page(v) in t.table
    ensures Served(UserStack, s, t)
  {
    forall p: nat | Wants(UserStack, p) ensures p in t.table {
      assert Page(p * PAGE_SIZE) == p;
    }
  }

  /** The kernel can load the image, and all its pages have addresses that are accepted. */
  ghost predicate FitForKernel(s: Space, base: nat, img: seq<Byte>) {
    && KernelLoader.KernelLoadable(s, base, img)
    && KernelLoader.GoodTargets(img, Phentsize(img, 0), KernelLoader.RelocationOf(EntryPoint(img, 0)))
  }

  lemma LoadableIsSourced(s: Space, base: nat, img: seq<Byte>)
    requires KernelLoader.KernelLoadable(s, base, img)
    ensures KernelLoader.Sourced(s, base, img)
  {
  }

  /** What stops an operation, apart from a lack of frames (`exhausted`) and failures of the page-table code (`failed`): a
      device page with an address that is not accepted, a store to an address without a user mapping, a load of a file that
      is not fit for it, and a userland load that runs out of the pages it asks for. */
  ghost predicate MayHalt(op: Op, s: Space, exhausted: bool, failed: bool)
    requires s.Sound()
  {
    match op
    case Probe => false
    case Grant(_, _) => exhausted
    case UserStack => exhausted
    case Device(phys, vaddr, pages) => exists i: nat :: i < pages && BadPage(phys, vaddr, i)
    case UserStore(vaddr, data) => vaddr < U64 && exists j: nat :: j < |data| && s.Faults(AddWrap(vaddr, j))
    case LoadImage(base, image) =>
      FitForKernel(s, base, image) ==> exhausted || failed
    case UserLoad(src, image) =>
      UserLoader.UserLoadable(s, src, image) ==> exhausted || failed || UserLoader.Starved(s, image, Phnum(image, 0))
  }

  lemma LoadMayHalt(s: Space, base: nat, img: seq<Byte>, exhausted: bool, failed: bool)
    requires s.Sound() && (FitForKernel(s, base, img) ==> exhausted || failed)
    ensures MayHalt(LoadImage(base, img), s, exhausted, failed)
  {
  }

  lemma UserLoadMayHalt(s: Space, src: nat, img: seq<Byte>, exhausted: bool, failed: bool)
    requires s.Sound() && (UserLoader.UserLoadable(s, src, img) ==> exhausted || failed || UserLoader.Starved(s, img, Phnum(img, 0)))
    ensures MayHalt(UserLoad(src, img), s, exhausted, failed)
  {
  }

  /** A slice that can be read as an image is read as this image. */
  lemma ReadableIsRead(s: Space, src: nat, image: seq<Byte>, ok: bool, data: seq<Byte>)
    requires s.Sound() && src < U64 && src + |image| <= U64 && UserLoader.Readable(s, src, image)
    requires ok ==> |data| == |image| && forall j: nat :: j < |image| ==>
      s.Backed(Page(AddWrap(src, j))) && data[j] == s.At(AddWrap(src, j))
    requires !ok ==> exists j: nat :: j < |image| && !s.Backed(Page(AddWrap(src, j)))
    ensures ok && data == image
  {
    hide Page;
    forall j: nat | j < |image| ensures AddWrap(src, j) == src + j && s.Backed(Page(src + j)) && s.At(src + j) == image[j] {
      assert UserLoader.ReadableByte(s, src, image, j);
    }
  }

  lemma LoadableIsReadable(s: Space, src: nat, image: seq<Byte>)
    requires UserLoader.UserLoadable(s, src, image)
    ensures UserLoader.Readable(s, src, image) && WellFormed(image, PHDR_SIZE) && HasMagic(image, 0)
    ensures |image| >= 64 && image[..4] == [0x7F, 'E' as int, 'L' as int, 'F' as int]
  {
    hide Phnum, Header;
    MagicIff(image, 0);
  }

  method KernelLoadStep(k: Kernel, base: nat, ghost image: seq<Byte>) returns (halted: bool)
    requires k.Valid()
    modifies k, k.allocator
    ensures k.Valid() && Spares(LoadImage(base, image), old(k.S()), k.S()) && k.mapErrors >= old(k.mapErrors)
    ensures old(k.S()).Sound() && k.S().Sound() && MapsOnly(LoadImage(base, image), old(k.S()), k.S())
    ensures !halted ==> Served(LoadImage(base, image), old(k.S()), k.S())
    ensures halted ==>
      MayHalt(LoadImage(base, image), old(k.S()), k.allocator.handed == |k.S().all|, k.mapErrors > old(k.mapErrors))
  {
    hide OneRole, AllFrames, NoOverflow, CursorAt, Spares, KernelLoader.Sourced, KernelLoader.OnlySegments, Keeps,
         KernelLoader.KernelLoadable, KernelLoader.ImageOn, KernelLoader.InUserPlace, MapsOnly, Served, MayHalt;
    ghost var s := k.S();
    OneRoleIsSound(s, k.allocator.handed, k.roles);
    var l := KernelLoader.LoadAndGetEntry(k, base, image);
    LoadSpares(s, k.S(), base, image);
    LoadMapsOnly(s, k.S(), base, image);
    OneRoleIsSound(k.S(), k.allocator.handed, k.roles);
    if l.Loaded? {
      LoadIsServed(s, k.S(), base, image);
    } else {
      if KernelLoader.KernelLoadable(s, base, image) { LoadableIsSourced(s, base, image); }
      LoadMayHalt(s, base, image, k.allocator.handed == |k.S().all|, k.mapErrors > old(k.mapErrors));
    }
    return !l.Loaded?;
  }

  method UserLoadStep(k: Kernel, src: nat, image: seq<Byte>) returns (halted: bool)
    requires k.Valid() && src < U64 && src + |image| <= U64
    modifies k, k.allocator
    ensures k.Valid() && Spares(UserLoad(src, image), old(k.S()), k.S()) && k.mapErrors >= old(k.mapErrors)
    ensures old(k.S()).Sound() && k.S().Sound() && MapsOnly(UserLoad(src, image), old(k.S()), k.S())
    ensures !halted ==> Served(UserLoad(src, image), old(k.S()), k.S())
    ensures halted ==>
      MayHalt(UserLoad(src, image), old(k.S()), k.allocator.handed == |k.S().all|, k.mapErrors > old(k.mapErrors))
  {
    hide OneRole, AllFrames, NoOverflow, CursorAt, Spares, Keeps, Preserves, UserLoader.UserFrame, UserLoader.Safe,
         UserLoader.Readable, UserLoader.UserLoadable, UserLoader.Laid, UserLoader.Starved, ImageAt, MapsOnly, Served,
         MayHalt;
    ghost var s := k.S();
    OneRoleIsSound(s, k.allocator.handed, k.roles);
    var ok, data := k.LoadBytes(src, |image|);
    if !ok || data != image {
      PreservesReflexive(s, k.allocator.handed, k.roles);
      PreservesSpares(UserLoad(src, image), s, k.S());
      SameTable(UserLoad(src, image), s);
      if UserLoader.UserLoadable(s, src, image) {
        LoadableIsReadable(s, src, image);
        ReadableIsRead(s, src, image, ok, data);
      }
      UserLoadMayHalt(s, src, image, k.allocator.handed == |s.all|, false);
      return true;
    }
    ReadIsReadable(s, src, image);
    var l := UserLoader.Load(k, src, |image|, image);
    UserLoadSpares(s, k.S(), src, image);
    UserLoadMapsOnly(s, k.S(), src, image);
    OneRoleIsSound(k.S(), k.allocator.handed, k.roles);
    if l.Loaded? {
      UserLoadIsServed(s, k.S(), src, image);
    } else {
      if UserLoader.UserLoadable(s, src, image) { LoadableIsReadable(s, src, image); }
      UserLoadMayHalt(s, src, image, k.allocator.handed == |k.S().all|, k.mapErrors > old(k.mapErrors));
    }
    return !l.Loaded?;
  }

  /** One operation. It halts when the service it stands for does, when a kernel store would go astray, or when a userland
      load does not find its slice. */
  method Step(k: Kernel, op: Op) returns (halted: bool)
    requires k.Valid() && Sane(op, k.devices)
    modifies k, k.allocator
    ensures k.Valid() && Spares(op, old(k.S()), k.S()) && k.mapErrors >= old(k.mapErrors)
    ensures old(k.S()).Sound() && k.S().Sound() && MapsOnly(op, old(k.S()), k.S())
    ensures !halted && k.mapErrors == old(k.mapErrors) ==> Served(op, old(k.S()), k.S())
    ensures halted ==> MayHalt(op, old(k.S()), k.allocator.handed == |k.S().all|, k.mapErrors > old(k.mapErrors))
    ensures op.Grant? && op.token != 0 ==>
      k.S() == old(k.S()) && k.roles == old(k.roles) && k.allocator.handed == old(k.allocator.handed)
    ensures op.Probe? ==>
      k.S() == old(k.S()) && (k.allocator.handed == old(k.allocator.handed) + 3 || k.allocator.handed == |k.S().all|)
  {
    hide OneRole, AllFrames, NoOverflow, CursorAt, Preserves, Stored, Spares, Keeps, IsSafeUserPtr, MapsOnly, Served;
    ghost var s := k.S();
    OneRoleIsSound(s, k.allocator.handed, k.roles);
    match op
    case Probe =>
      for i := 0 to 3
        invariant k.Valid() && k.S() == s && k.mapErrors == old(k.mapErrors)
        invariant k.allocator.handed == old(k.allocator.handed) + i || k.allocator.handed == |s.all|
      {
        var f := k.AllocateFrame();
        HandedFits(k.S(), k.allocator.handed, k.roles);
      }
      PreservesReflexive(s, k.allocator.handed, k.roles);
      PreservesSpares(op, s, k.S());
      MapsNothing(op, s, s);
      return false;
    case Grant(token, vaddr) =>
      var g := k.SysGrant(token, vaddr);
      PreservesSpares(op, s, k.S());
      OneRoleIsSound(k.S(), k.allocator.handed, k.roles);
      GrantMapsOnly(op, s, k.S());
      if !g.Halt? && k.mapErrors == old(k.mapErrors) { GrantIsServed(op, s, k.S()); }
      return g.Halt?;
    case LoadImage(base, image) =>
      halted := KernelLoadStep(k, base, image);
    case UserStack =>
      var o := k.BuildUserStack();
      PreservesSpares(op, s, k.S());
      OneRoleIsSound(k.S(), k.allocator.handed, k.roles);
      StackMapsOnly(s, k.S());
      if o.Done? && k.mapErrors == old(k.mapErrors) { StackIsServed(s, k.S()); }
      return !o.Done?;
    case Device(phys, vaddr, pages) =>
      var o := k.MapDevice(phys, vaddr, pages);
      PreservesSpares(op, s, k.S());
      DeviceMapsOnly(op, s, k.S());
      OneRoleIsSound(k.S(), k.allocator.handed, k.roles);
      if o.Done? && k.mapErrors == old(k.mapErrors) { DeviceIsServed(op, s, k.S()); }
      return !o.Done?;
    case UserStore(vaddr, data) =>
      var ok := k.StoreBytes(vaddr, data);
      OneRoleIsSound(k.S(), k.allocator.handed, k.roles);
      if ok {
        StoreSpares(s, k.S(), vaddr, data, data);
        StoredTable(s, k.S(), vaddr, data);
      } else {
        ghost var j :| 0 <= j < |data| && Stored(s, k.S(), vaddr, data[..j]) && k.S().Faults(AddWrap(vaddr, j));
        StoreSpares(s, k.S(), vaddr, data, data[..j]);
        StoredTable(s, k.S(), vaddr, data[..j]);
      }
      MapsNothing(op, s, k.S());
      return !ok;
    case UserLoad(src, image) =>
      halted := UserLoadStep(k, src, image);
  }

  ghost predicate LeftAlone(ops: seq<Op>, s: Space, u: nat) {
    forall op :: op in ops ==> !Touches(op, s, u)
  }

  /** From `s` to `t` by operations among `ops`. */
  ghost predicate RunSpares(ops: seq<Op>, s: Space, t: Space) {
    && Keeps(s, t)
    && forall u: nat :: u < U64 && s.Backed(Page(u)) && LeftAlone(ops, s, u) ==> t.Backed(Page(u)) && t.At(u) == s.At(u)
  }

  /** An image that was in place at the start is in place later, so what a load may touch does not change. */
  lemma StillLeftAlone(op: Op, s: Space, t: Space, u: nat)
    requires Keeps(s, t) && !Touches(op, s, u) && Page(u) in s.table
    ensures !Touches(op, t, u)
  {
    hide Keeps, KernelLoader.Hit;
    if op.LoadImage? {
      KernelLoader.HeadersInPlace(s, t, op.base, op.image);
      StillSpared(s, t, op.image, Phentsize(op.image, 0), KernelLoader.RelocationOf(EntryPoint(op.image, 0)), Page(u));
    }
  }

  lemma StillSpared(s: Space, t: Space, img: seq<Byte>, stride: nat, off: nat, p: nat)
    requires Keeps(s, t) && WellFormed(img, stride) && p in s.table
    requires KernelLoader.Spared(s, img, stride, off, Phnum(img, 0), p)
    ensures KernelLoader.Spared(t, img, stride, off, Phnum(img, 0), p)
  {
    hide Keeps, KernelLoader.Hit, Header, Phnum;
    forall i: nat | i < Phnum(img, 0) && Header(img, stride, i).loadable
      ensures !KernelLoader.Hit(t, Header(img, stride, i), off, p)
    {
      KernelLoader.HitLater(s, t, Header(img, stride, i), off, p);
    }
  }

  /** Every page mapped from `s` to `t` may be mapped by one of the operations. */
  ghost predicate RunMapsOnly(ops: seq<Op>, s: Space, t: Space) {
    forall p: nat :: p in t.table ==> p in s.table || exists op :: op in ops && MayMap(op, s, p)
  }

  lemma StillMayNotMap(op: Op, s: Space, t: Space, p: nat)
    requires Keeps(s, t) && MayMap(op, t, p)
    ensures MayMap(op, s, p)
  {
    hide Keeps, KernelLoader.Outside;
    if op.LoadImage? && KernelLoader.Sourced(s, op.base, op.image) {
      KernelLoader.HeadersInPlace(s, t, op.base, op.image);
    }
  }

  lemma RunMapsOnlyStep(ops: seq<Op>, s: Space, t: Space, t2: Space, op: Op)
    requires Keeps(s, t) && RunMapsOnly(ops, s, t) && op in ops && MapsOnly(op, t, t2)
    ensures RunMapsOnly(ops, s, t2)
  {
    hide Keeps, MayMap;
    forall p: nat | p in t2.table && p !in s.table ensures exists o :: o in ops && MayMap(o, s, p) {
      if p !in t.table {
        StillMayNotMap(op, s, t, p);
      }
    }
  }

  /** Everything that the operations ask for is mapped. */
  ghost predicate AllWanted(ops: seq<Op>, t: Space) {
    forall op, p: nat :: op in ops && Wants(op, p) ==> p in t.table
  }

  lemma AllWantedStep(ops: seq<Op>, i: nat, s: Space, t: Space)
    requires i < |ops| && AllWanted(ops[..i], s) && Keeps(s, t) && s.Sound() && t.Sound() && Served(ops[i], s, t)
    ensures AllWanted(ops[..i + 1], t)
  {
    hide Wants;
    assert ops[..i + 1] == ops[..i] + [ops[i]];
  }

  lemma SparesIsKeeps(op: Op, s: Space, t: Space)
    requires Spares(op, s, t)
    ensures Keeps(s, t)
  {
  }

  lemma RunSparesIsKeeps(ops: seq<Op>, s: Space, t: Space)
    requires RunSpares(ops, s, t)
    ensures Keeps(s, t)
  {
  }

  lemma RunSparesStep(ops: seq<Op>, s: Space, t: Space, t2: Space, op: Op)
    requires RunSpares(ops, s, t) && op in ops && Spares(op, t, t2)
    ensures RunSpares(ops, s, t2)
  {
    hide Keeps, Page, Touches;
    KeepsTransitive(s, t, t2);
    KernelLoader.KeepsIsSound(s, t2);
    forall u: nat | u < U64 && s.Backed(Page(u)) && LeftAlone(ops, s, u) ensures t2.Backed(Page(u)) && t2.At(u) == s.At(u) {
      StillLeftAlone(op, s, t, u);
    }
  }

  /** In every run of the boot self-test, grants, kernel and userland loads, stack construction, device mappings and user
      stores, in any order, up to the first one that halts: a page once mapped keeps its frame; a byte once seen changes
      only by a store to it, a kernel load of a segment that is written to its page, be it through a mapping of the
      bootloader, or a userland load of a segment around it; a page becomes mapped only if an operation asks for it or
      loads a segment on it; every handed-out frame has one role; and no two pages of ordinary memory share a frame. If no operation halts
      and the page-table code does not fail, everything that was asked for is mapped at the end. */
  method Run(k: Kernel, ops: seq<Op>) returns (halted: bool)
    requires k.Valid() && forall op :: op in ops ==> Sane(op, k.devices)
    modifies k, k.allocator
    ensures RunMapsOnly(ops, old(k.S()), k.S())
    ensures !halted && k.mapErrors == old(k.mapErrors) ==> AllWanted(ops, k.S())
    ensures old(k.S()).Sound()
    ensures halted ==> RunMayHalt(ops, old(k.S()), k.allocator.handed == |k.S().all|, k.mapErrors > old(k.mapErrors))
    ensures k.Valid() && OneRole(k.S(), k.allocator.handed, k.roles)
    ensures RunSpares(ops, old(k.S()), k.S())
    ensures forall p, q :: k.S().Backed(p) && k.S().Backed(q) && p != q ==> k.table[p] != k.table[q]
  {
    hide OneRole, AllFrames, NoOverflow, CursorAt, Sane, RunSpares, Spares, Keeps, Preserves, MapsOnly, Served, MayMap,
         Wants, AllWanted,
         MayHalt, RunMayHalt;
    halted := false;
    ghost var s := k.S();
    PreservesReflexive(s, k.allocator.handed, k.roles);
    OneRoleIsSound(s, k.allocator.handed, k.roles);
    RunSparesNone(ops, s);
    NothingWanted(s);
    var i := 0;
    while i < |ops| && !halted
      invariant 0 <= i <= |ops| && k.Valid() && RunSpares(ops, s, k.S()) && RunMapsOnly(ops, s, k.S())
      invariant k.mapErrors >= old(k.mapErrors)
      invariant halted ==> RunMayHalt(ops, s, k.allocator.handed == |k.S().all|, k.mapErrors > old(k.mapErrors))
      invariant !halted && k.mapErrors == old(k.mapErrors) ==> AllWanted(ops[..i], k.S())
    {
      ghost var t, errors := k.S(), k.mapErrors;
      RunSparesIsKeeps(ops, s, t);
      halted := Step(k, ops[i]);
      if halted { RunMayHaltAt(ops, ops[i], s, t, k.allocator.handed == |k.S().all|, k.mapErrors > errors); }
      if halted && k.mapErrors > old(k.mapErrors) { RunMayHaltErrors(ops, s, k.allocator.handed == |k.S().all|); }
      RunMapsOnlyStep(ops, s, t, k.S(), ops[i]);
      RunSparesStep(ops, s, t, k.S(), ops[i]);
      SparesIsKeeps(ops[i], t, k.S());
      if !halted && k.mapErrors == old(k.mapErrors) { AllWantedStep(ops, i, t, k.S()); }
      i := i + 1;
    }
    assert ops[..|ops|] == ops;
    OneRoleIsSound(k.S(), k.allocator.handed, k.roles);
  }

  /** What stops a run: frames run out, the page-table code fails, a load, or an operation that was bound to stop. */
  ghost predicate RunMayHalt(ops: seq<Op>, s: Space, exhausted: bool, failed: bool)
    requires s.Sound()
  {
    exhausted || failed || exists op :: op in ops && (op.LoadImage? || op.UserLoad? || MayHalt(op, s, false, false))
  }

  lemma RunMayHaltAt(ops: seq<Op>, op: Op, s: Space, t: Space, exhausted: bool, failed: bool)
    requires Keeps(s, t) && s.Sound() && t.Sound() && op in ops && MayHalt(op, t, exhausted, failed)
    ensures RunMayHalt(ops, s, exhausted, failed)
  {
    hide AddWrap, BadPage;
    if op.UserStore? {
      var j: nat :| j < |op.data| && t.Faults(AddWrap(op.vaddr, j));
      assert s.Faults(AddWrap(op.vaddr, j));
      assert MayHalt(op, s, false, false);
    } else if op.Device? {
      assert MayHalt(op, s, false, false);
    }
  }

  lemma RunMayHaltErrors(ops: seq<Op>, s: Space, exhausted: bool)
    requires s.Sound()
    ensures RunMayHalt(ops, s, exhausted, true)
  {
  }

  lemma NothingWanted(s: Space)
    ensures AllWanted([], s)
  {
  }

  lemma RunSparesNone(ops: seq<Op>, s: Space)
    requires Preserves(s, s)
    ensures RunSpares(ops, s, s)
  {
  }

  /** What the two loaders are given: the same image, not linked into the kernel's half, with the standard
      header size. */
  ghost predicate SameImage(s: Space, base: nat, t: Space, src: nat, img: seq<Byte>) {
    && KernelLoader.KernelLoadable(s, base, img) && UserLoader.UserLoadable(t, src, img)
    && Phentsize(img, 0) == PHDR_SIZE && EntryPoint(img, 0) < KernelLoader.HIGHER_HALF
  }

  /** Clearing pages and then copying (the kernel) and copying and then clearing the rest (userland) give the same entry
      point, and leave the same bytes for the user in every segment if and only if everywhere the last segment on the page
      puts there what the last segment around the address does, and none is on a page of the bootloader. */
  method LoadersAgree(k: Kernel, base: nat, u: Kernel, src: nat, len: nat, ghost img: seq<Byte>)
    returns (rk: KernelLoader.LoadResult, ru: KernelLoader.LoadResult)
    requires k.Valid() && u.Valid() && k != u && k.allocator != u.allocator
    requires src < U64 && |img| == len && SameImage(k.S(), base, u.S(), src, img)
    modifies k, k.allocator, u, u.allocator
    ensures rk.Loaded? && ru.Loaded? ==>
      && rk.entry == ru.entry && k.S().Sound() && u.S().Sound()
      && (SameSegments(k.S(), u.S(), img) <==> Matched(img) && KernelLoader.OffBoot(k.boot, img, PHDR_SIZE, 0))
  {
    hide OneRole, AllFrames, NoOverflow, CursorAt, Keeps, Header, Field, KernelLoader.Sourced, KernelLoader.TameTargets,
         UserLoader.UserFrame, UserLoader.OffSource, UserLoader.Laid, UserLoader.Agree, Matched, KernelLoader.ImageOn,
         UserLoader.PlainTarget, ImageAt, UserLoader.Safe,
         UserLoader.Readable, KernelLoader.NothingLost, KernelLoader.OffBoot, UserLoader.Starved, KernelLoader.OnlySegments,
         KernelLoader.SomeHomeless;
    rk := KernelLoader.LoadAndGetEntry(k, base, img);
    ru := UserLoader.Load(u, src, len, img);
    if rk.Loaded? && ru.Loaded? {
      OneRoleIsSound(k.S(), k.allocator.handed, k.roles);
      OneRoleIsSound(u.S(), u.allocator.handed, u.roles);
      MatchedIff(k.S(), u.S(), img);
    }
  }

  /** At byte `k` of segment `i`, the last segment on the page and the last segment around the address put the same. */
  ghost predicate MatchedByte(img: seq<Byte>, i: nat, k: nat)
    requires WellFormed(img, PHDR_SIZE) && i < Phnum(img, 0)
    requires Header(img, PHDR_SIZE, i).loadable && k < Header(img, PHDR_SIZE, i).memsz
  {
    var v := Header(img, PHDR_SIZE, i).vaddr + k;
    var j, b := KernelLoader.LastOn(img, PHDR_SIZE, Phnum(img, 0), Page(v)), UserLoader.FinalByte(img, Phnum(img, 0), v);
    j >= 0 && Header(img, PHDR_SIZE, j).loadable && b.Some? ==> KernelLoader.Content(img, Header(img, PHDR_SIZE, j), v) == b.value
  }

  /** A property of the file alone. */
  ghost predicate Matched(img: seq<Byte>)
    requires WellFormed(img, PHDR_SIZE)
  {
    forall i: nat, k: nat :: i < Phnum(img, 0) && Header(img, PHDR_SIZE, i).loadable && k < Header(img, PHDR_SIZE, i).memsz ==>
      MatchedByte(img, i, k)
  }

  lemma MatchedByteIff(s: Space, t: Space, img: seq<Byte>, i: nat, k: nat)
    requires s.Sound() && t.Sound() && WellFormed(img, PHDR_SIZE) && i < Phnum(img, 0)
    requires Header(img, PHDR_SIZE, i).loadable && k < Header(img, PHDR_SIZE, i).memsz
    requires SegmentFits(img, Header(img, PHDR_SIZE, i))
    requires KernelLoader.ImageOn(s, img, PHDR_SIZE, 0, Phnum(img, 0)) && UserLoader.Laid(t, img, Phnum(img, 0))
    ensures SameByte(s, t, Header(img, PHDR_SIZE, i), k) <==>
            MatchedByte(img, i, k) && KernelLoader.UserByte(s.boot, img, Header(img, PHDR_SIZE, i), 0, k)
  {
    hide Header, KernelLoader.Content, KernelLoader.OnPages, Page, KernelLoader.LastOn, UserLoader.FinalByte, Phnum,
         Expected, SegmentFits;
    var ph := Header(img, PHDR_SIZE, i);
    var v := ph.vaddr + k;
    KernelLoader.OwnContent(img, ph, k);
    UserLoader.PlainAddress(img, ph, k);
    assert KernelLoader.SegmentOn(img, PHDR_SIZE, i, Page(v));
    KernelLoader.LastOnFacts(img, PHDR_SIZE, Phnum(img, 0), Page(v));
    KernelLoader.ImageOnAt(s, img, PHDR_SIZE, 0, Phnum(img, 0), v);
    assert UserLoader.Around(img, i, v);
    UserLoader.FinalByteExists(img, Phnum(img, 0), v, i);
    assert UserLoader.LaidByte(t, img, Phnum(img, 0), v);
  }

  /** The two memories show the same segments exactly for files with this property, off the bootloader's pages. */
  lemma MatchedIff(s: Space, t: Space, img: seq<Byte>)
    requires s.Sound() && t.Sound() && WellFormed(img, PHDR_SIZE)
    requires KernelLoader.ImageOn(s, img, PHDR_SIZE, 0, Phnum(img, 0)) && UserLoader.Laid(t, img, Phnum(img, 0))
    ensures SameSegments(s, t, img) <==> Matched(img) && KernelLoader.OffBoot(s.boot, img, PHDR_SIZE, 0)
  {
    hide Header, HasMagic, Phnum, SegmentFits, SameByte, MatchedByte, KernelLoader.UserByte, KernelLoader.ImageOn,
         UserLoader.Laid;
    forall i: nat, k: nat | i < Phnum(img, 0) && Header(img, PHDR_SIZE, i).loadable && k < Header(img, PHDR_SIZE, i).memsz
      ensures SegmentFits(img, Header(img, PHDR_SIZE, i))
      ensures SameByte(s, t, Header(img, PHDR_SIZE, i), k) <==>
        MatchedByte(img, i, k) && KernelLoader.UserByte(s.boot, img, Header(img, PHDR_SIZE, i), 0, k)
    {
      KernelLoader.FitsIfWellFormed(img, PHDR_SIZE, i);
      MatchedByteIff(s, t, img, i, k);
    }
    if SameSegments(s, t, img) {
      forall i: nat, k: nat | i < Phnum(img, 0) && Header(img, PHDR_SIZE, i).loadable && k < Header(img, PHDR_SIZE, i).memsz
        ensures MatchedByte(img, i, k) && KernelLoader.UserByte(s.boot, img, Header(img, PHDR_SIZE, i), 0, k)
      {
        assert SameSegment(s, t, Header(img, PHDR_SIZE, i));
        assert SameByte(s, t, Header(img, PHDR_SIZE, i), k);
      }
    }
    if Matched(img) && KernelLoader.OffBoot(s.boot, img, PHDR_SIZE, 0) {
      forall i: nat | i < Phnum(img, 0) && Header(img, PHDR_SIZE, i).loadable ensures SameSegment(s, t, Header(img, PHDR_SIZE, i)) {
        forall k: nat | k < Header(img, PHDR_SIZE, i).memsz ensures SameByte(s, t, Header(img, PHDR_SIZE, i), k) {
          assert MatchedByte(img, i, k);
        }
      }
    }
  }

  /** If overlapping segments prescribe the same bytes, that is so exactly if the kernel loses no byte on a shared page. */
  lemma MatchedIfNothingLost(img: seq<Byte>)
    requires WellFormed(img, PHDR_SIZE) && UserLoader.Agree(img, img)
    ensures Matched(img) <==> KernelLoader.NothingLost(img, PHDR_SIZE)
  {
    hide Header, HasMagic, Phnum, SegmentFits, MatchedByte, KernelLoader.Survives, UserLoader.Agree;
    forall i: nat, k: nat | i < Phnum(img, 0) && Header(img, PHDR_SIZE, i).loadable && k < Header(img, PHDR_SIZE, i).memsz
      ensures MatchedByte(img, i, k) <==> KernelLoader.Survives(img, PHDR_SIZE, i, k)
    {
      MatchedIfSurvives(img, i, k);
    }
  }

  lemma MatchedIfSurvives(img: seq<Byte>, i: nat, k: nat)
    requires WellFormed(img, PHDR_SIZE) && UserLoader.Agree(img, img) && i < Phnum(img, 0)
    requires Header(img, PHDR_SIZE, i).loadable && k < Header(img, PHDR_SIZE, i).memsz
    ensures MatchedByte(img, i, k) <==> KernelLoader.Survives(img, PHDR_SIZE, i, k)
  {
    hide Header, HasMagic, Phnum, SegmentFits, KernelLoader.Content, KernelLoader.OnPages, Page, KernelLoader.LastOn,
         UserLoader.FinalByte, UserLoader.Agree, Expected;
    var ph := Header(img, PHDR_SIZE, i);
    var v := ph.vaddr + k;
    KernelLoader.FitsIfWellFormed(img, PHDR_SIZE, i);
    KernelLoader.OwnContent(img, ph, k);
    assert KernelLoader.SegmentOn(img, PHDR_SIZE, i, Page(v));
    KernelLoader.LastOnFacts(img, PHDR_SIZE, Phnum(img, 0), Page(v));
    assert UserLoader.Around(img, i, v);
    UserLoader.FinalByteExists(img, Phnum(img, 0), v, i);
    var j := UserLoader.FinalByteFrom(img, Phnum(img, 0), v);
    UserLoader.AgreeAt(img, img, i, j, v);
  }

  /** All bytes of all segments are the same in both spaces. */
  ghost predicate SameSegments(s: Space, t: Space, img: seq<Byte>)
    requires s.Sound() && t.Sound() && WellFormed(img, PHDR_SIZE)
  {
    forall i: nat :: i < Phnum(img, 0) && Header(img, PHDR_SIZE, i).loadable ==> SameSegment(s, t, Header(img, PHDR_SIZE, i))
  }

  ghost predicate SameSegment(s: Space, t: Space, ph: Phdr)
    requires s.Sound() && t.Sound()
  {
    forall j: nat :: j < ph.memsz ==> SameByte(s, t, ph, j)
  }

  /** Byte number `j` of the segment is the same in both spaces. */
  ghost predicate SameByte(s: Space, t: Space, ph: Phdr, j: nat)
    requires s.Sound() && t.Sound()
  {
    var v := ph.vaddr + j;
    s.Backed(Page(v)) && t.Backed(Page(v)) && s.At(v) == t.At(v)
  }
}
