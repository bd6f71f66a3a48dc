/** The userland ELF loader of libstardust, `elf::load`: it asks the kernel for the segment's pages, copies
    the file's bytes and then clears the rest of the segment, all through the caller's own address space. */
module UserLoader {
  import opened Collections
  import opened Words
  import opened Frames
  import opened Memory
  import opened Kernel
  import opened Elf
  import opened ElfWriter
  import opened KernelLoader

  /** The image is readable at the virtual address `src`. */
  ghost predicate Readable(s: Space, src: nat, img: seq<Byte>) {
    s.Sound() && src + |img| <= U64 && forall j: nat :: j < |img| ==> ReadableByte(s, src, img, j)
  }

  ghost predicate ReadableByte(s: Space, src: nat, img: seq<Byte>, j: nat)
    requires s.Sound() && j < |img|
  {
    s.Backed(Page(src + j)) && s.At(src + j) == img[j]
  }

  predicate InSegment(ph: Phdr, u: nat) {
    ph.vaddr <= u < ph.vaddr + ph.memsz
  }

  /** Whatever is mapped in the segment's range is ordinary memory. */
  ghost predicate PlainTarget(s: Space, ph: Phdr) {
    forall u: nat :: InSegment(ph, u) && Page(u) in s.table ==> s.Backed(Page(u))
  }

  /** No segment overlaps the image it is loaded from. */
  ghost predicate OffSource(img: seq<Byte>, src: nat)
    requires WellFormed(img, PHDR_SIZE)
  {
    forall i: nat, u: nat :: i < Phnum(img, 0) && Header(img, PHDR_SIZE, i).loadable ==>
      !(InSegment(Header(img, PHDR_SIZE, i), u) && src <= u < src + |img|)
  }

  ghost predicate UserLoadable(s: Space, src: nat, img: seq<Byte>) {
    && Readable(s, src, img) && WellFormed(img, PHDR_SIZE) && OffSource(img, src)
    && (forall i: nat :: i < Phnum(img, 0) && Header(img, PHDR_SIZE, i).loadable ==>
          PlainTarget(s, Header(img, PHDR_SIZE, i)))
  }

  /** Grants only add pages of ordinary memory. */
  ghost predicate Granted(s: Space, t: Space) {
    Preserves(s, t) && forall p :: p in t.table ==> p in s.table || t.Backed(p)
  }

  lemma GrantedStep(s: Space, t: Space, u: Space, p: nat)
    requires Granted(s, t) && Preserves(t, u)
    requires (forall q :: q in u.table ==> q in t.table || q == p) && (p in u.table && p !in t.table ==> u.Backed(p))
    ensures Granted(s, u)
  {
    PreservesTransitive(s, t, u);
    forall q: nat | q in u.table && q !in s.table ensures u.Backed(q) {
      if q in t.table {
        assert t.Backed(q);
      }
    }
  }

  /** Number of pages the loader asks for; the sum wraps. */
  function PagesFor(memsz: nat): nat {
    (memsz + (PAGE_SIZE - 1)) % U64 / PAGE_SIZE
  }

  /** For every size that can be rounded up, the least number of pages that hold so many bytes. */
  lemma PagesForIsLeast(memsz: nat, n: nat)
    requires memsz + 4095 < U64
    ensures PagesFor(memsz) <= n <==> memsz <= n * 4096
  {
  }

  /** The pages asked for cover the segment exactly when its page offset does not push it over one more
      page: the loader counts from the segment's start, not from its page's start. */
  lemma PagesCoverIff(ph: Phdr)
    requires ph.vaddr + ph.memsz + (PAGE_SIZE - 1) < U64
    ensures (forall u: nat :: InSegment(ph, u) ==> Requested(ph, Page(u))) <==>
            ph.memsz == 0 || Offset(ph.vaddr) + ph.memsz <= PagesFor(ph.memsz) * PAGE_SIZE
  {
    var n := PagesFor(ph.memsz);
    if ph.memsz > 0 {
      var last := ph.vaddr + ph.memsz - 1;
      assert InSegment(ph, last);
      RequestedRange(ph);
      PageSplit(ph.vaddr);
      PageSplit(last);
    }
  }

  /** Some requested address lies in page `q`. */
  ghost predicate Requested(ph: Phdr, q: nat) {
    exists p: nat :: p < PagesFor(ph.memsz) && q == Page(RequestAddr(ph, p))
  }

  function RequestAddr(ph: Phdr, p: nat): nat {
    (ph.vaddr + p * PAGE_SIZE) % U64
  }

  lemma RequestedRange(ph: Phdr)
    requires ph.vaddr + ph.memsz + (PAGE_SIZE - 1) < U64
    ensures forall q: nat :: Requested(ph, q) <==> Page(ph.vaddr) <= q < Page(ph.vaddr) + PagesFor(ph.memsz)
  {
    forall q: nat ensures Requested(ph, q) <==> Page(ph.vaddr) <= q < Page(ph.vaddr) + PagesFor(ph.memsz) {
      if Requested(ph, q) {
        var p: nat :| p < PagesFor(ph.memsz) && q == Page(RequestAddr(ph, p));
        RequestPage(ph, p);
      }
      if Page(ph.vaddr) <= q < Page(ph.vaddr) + PagesFor(ph.memsz) {
        RequestPage(ph, q - Page(ph.vaddr));
      }
    }
  }

  lemma RequestPage(ph: Phdr, p: nat)
    requires ph.vaddr + ph.memsz + (PAGE_SIZE - 1) < U64 && p < PagesFor(ph.memsz)
    ensures Page(RequestAddr(ph, p)) == Page(ph.vaddr) + p
  {
  }

  /** Some requested address lies in page `q` and passes the kernel's range check. */
  ghost predicate Asked(ph: Phdr, q: nat) {
    exists p: nat :: p < PagesFor(ph.memsz) && AskedAt(ph, p, q)
  }

  ghost predicate AskedAt(ph: Phdr, p: nat, q: nat) {
    q == Page(RequestAddr(ph, p)) && IsSafeUserPtr(RequestAddr(ph, p), PAGE_SIZE)
  }

  /** The grant loop of one segment: only pages asked for become mapped, and all of them unless the frames run out or the
      page-table code fails. */
  method GrantSegment(k: Kernel, ph: Phdr) returns (halted: bool)
    requires k.Valid() && ph.vaddr < U64
    modifies k, k.allocator
    ensures k.Valid() && Granted(old(k.S()), k.S())
    ensures halted ==> k.allocator.handed == |k.S().all|
    ensures k.mapErrors >= old(k.mapErrors)
    ensures forall q :: q in k.table ==> q in old(k.table) || Asked(ph, q)
    ensures !halted && k.mapErrors == old(k.mapErrors) ==> forall q :: Asked(ph, q) ==> q in k.table
  {
    hide OneRole, AllFrames, NoOverflow, CursorAt, Preserves, Granted, IsSafeUserPtr, PagesFor, RequestAddr;
    ghost var s := k.S();
    GrantedNone(s, k.allocator.handed, k.roles);
    var pages := PagesFor(ph.memsz);
    for p := 0 to pages
      invariant k.Valid() && Granted(s, k.S()) && k.mapErrors >= old(k.mapErrors)
      invariant forall q :: q in k.table ==> q in s.table || Asked(ph, q)
      invariant k.mapErrors == old(k.mapErrors) ==> forall j: nat, q :: j < p && AskedAt(ph, j, q) ==> q in k.table
    {
      ghost var t := k.S();
      var vaddr := RequestAddr(ph, p);
      var g := k.SysGrant(0, vaddr);
      GrantedStep(s, t, k.S(), Page(vaddr));
      PreservesPages(t, k.S());
      assert IsSafeUserPtr(vaddr, PAGE_SIZE) ==> AskedAt(ph, p, Page(vaddr));
      if g.Halt? {
        return true;
      }
    }
    return false;
  }

  lemma GrantedNone(s: Space, n: nat, roles: map<nat, Role>)
    requires OneRole(s, n, roles)
    ensures Granted(s, s)
  {
  }

  /** From `s` to `t`, no visible byte outside the segment changed, and only pages it asks for became mapped. */
  ghost predicate SegmentFrame(s: Space, t: Space, ph: Phdr) {
    && Keeps(s, t)
    && (forall u: nat :: u < U64 && s.Backed(Page(u)) && !InSegment(ph, u) ==>
          t.Backed(Page(u)) && t.At(u) == s.At(u))
    && (forall p :: p in t.table ==> p in s.table || (t.Backed(p) && Asked(ph, p)))
  }

  /** Copying the file's bytes and then clearing the rest gives the segment, and changes no byte outside it. */
  lemma CopyThenClear(s: Space, t: Space, t1: Space, t2: Space, img: seq<Byte>, ph: Phdr, data: seq<Byte>, zeros: seq<Byte>)
    requires SegmentFits(img, ph) && ph.vaddr < U64 && Granted(s, t) && PlainTarget(s, ph)
    requires data == img[ph.offset..ph.offset + ph.filesz] && zeros == seq(ph.memsz - ph.filesz, i => 0)
    requires Stored(t, t1, ph.vaddr, data) && Stored(t1, t2, AddWrap(ph.vaddr, ph.filesz), zeros)
    requires forall u: nat :: InSegment(ph, u) ==> Page(u) in t.table && Page(u) !in t.boot
    requires t2.Sound()
    ensures SegmentAt(t2, img, ph, 0)
  {
    hide Page, Dist, Preserves, Stored, Keeps, AddWrap, PlainTarget, Granted;
    var mid := AddWrap(ph.vaddr, ph.filesz);
    MiddleAddress(ph);
    forall j: nat | j < ph.memsz ensures ByteAt(t2, img, ph, 0, j) {
      var u := ph.vaddr + j;
      assert InSegment(ph, u);
      PlainAfterGrant(s, t, ph, u);
      StoredByte(t, t1, ph.vaddr, data, u);
      StoredByte(t1, t2, mid, zeros, u);
      SegmentDistances(ph, u);
    }
  }

  /** The two runs of stores, however far each got, change no byte outside the segment. */
  lemma StoresStayInside(t: Space, t1: Space, t2: Space, ph: Phdr, data: seq<Byte>, zeros: seq<Byte>)
    requires ph.vaddr + ph.memsz + (PAGE_SIZE - 1) < U64 && |data| <= ph.filesz <= ph.memsz && |zeros| <= ph.memsz - ph.filesz
    requires Stored(t, t1, ph.vaddr, data) && Stored(t1, t2, AddWrap(ph.vaddr, ph.filesz), zeros)
    ensures Keeps(t, t2) && t2.table == t.table
    ensures forall u: nat :: u < U64 && t.Backed(Page(u)) && !InSegment(ph, u) ==> t2.Backed(Page(u)) && t2.At(u) == t.At(u)
  {
    hide Page, Dist, Stored, Keeps, AddWrap;
    var mid := AddWrap(ph.vaddr, ph.filesz);
    StoredIsKeeps(t, t1, ph.vaddr, data);
    StoredIsKeeps(t1, t2, mid, zeros);
    KeepsTransitive(t, t1, t2);
    KeepsIsSound(t, t2);
    forall u: nat | u < U64 && t.Backed(Page(u)) && !InSegment(ph, u) ensures t2.Backed(Page(u)) && t2.At(u) == t.At(u) {
      StoredByte(t, t1, ph.vaddr, data, u);
      StoredByte(t1, t2, mid, zeros, u);
      SegmentDistances(ph, u);
    }
  }

  /** Grants, and then stores inside the segment. */
  lemma GrantThenStore(s: Space, t: Space, t2: Space, ph: Phdr)
    requires Granted(s, t) && (forall q :: q in t.table ==> q in s.table || Asked(ph, q))
    requires Keeps(t, t2) && t2.table == t.table
    requires forall u: nat :: u < U64 && t.Backed(Page(u)) && !InSegment(ph, u) ==>
      t.Sound() && t2.Sound() && t2.Backed(Page(u)) && t2.At(u) == t.At(u)
    ensures SegmentFrame(s, t2, ph)
  {
    hide Page, Preserves, Keeps, Granted, Asked;
    GrantedIsKeeps(s, t);
    KeepsTransitive(s, t, t2);
    KeepsIsSound(s, t2);
    KeepsIsSound(t, t2);
    forall u: nat | u < U64 && s.Backed(Page(u)) && !InSegment(ph, u)
      ensures t2.Backed(Page(u)) && t2.At(u) == s.At(u)
    {
      GrantedByte(s, t, u);
    }
    forall p | p in t2.table && p !in s.table ensures t2.Backed(p) && Asked(ph, p) {
      GrantedPage(s, t, p);
      StillBacked(t, t2, p);
    }
  }

  lemma StoredByte(s: Space, t: Space, v: nat, data: seq<Byte>, u: nat)
    requires v < U64 && u < U64 && Stored(s, t, v, data) && s.Backed(Page(u))
    ensures s.Sound() && t.Sound() && t.Backed(Page(u))
    ensures t.At(u) == if Dist(v, u) < |data| then data[Dist(v, u)] else s.At(u)
  {
  }

  lemma MiddleAddress(ph: Phdr)
    requires ph.vaddr + ph.memsz + (PAGE_SIZE - 1) < U64 && ph.filesz <= ph.memsz
    ensures AddWrap(ph.vaddr, ph.filesz) == ph.vaddr + ph.filesz < U64
  {
  }

  lemma SegmentDistances(ph: Phdr, u: nat)
    requires ph.vaddr + ph.memsz + (PAGE_SIZE - 1) < U64 && ph.filesz <= ph.memsz && u < U64
    ensures AddWrap(ph.vaddr, ph.filesz) < U64
    ensures InSegment(ph, u) ==> Dist(ph.vaddr, u) == u - ph.vaddr
    ensures Dist(ph.vaddr, u) < ph.filesz <==> ph.vaddr <= u < ph.vaddr + ph.filesz
    ensures Dist(AddWrap(ph.vaddr, ph.filesz), u) < ph.memsz - ph.filesz <==>
            ph.vaddr + ph.filesz <= u < ph.vaddr + ph.memsz
  {
  }

  lemma GrantedIsKeeps(s: Space, t: Space)
    requires Granted(s, t)
    ensures Keeps(s, t)
  {
  }

  lemma GrantedByte(s: Space, t: Space, u: nat)
    requires Granted(s, t) && s.Backed(Page(u))
    ensures s.Sound() && t.Sound() && t.Backed(Page(u)) && t.At(u) == s.At(u)
  {
  }

  lemma GrantedPage(s: Space, t: Space, p: nat)
    requires Granted(s, t) && p in t.table && p !in s.table
    ensures t.Backed(p)
  {
  }

  lemma PlainAfterGrant(s: Space, t: Space, ph: Phdr, u: nat)
    requires Granted(s, t) && PlainTarget(s, ph) && InSegment(ph, u) && Page(u) in t.table
    ensures t.Backed(Page(u))
  {
  }

  /** Reading the segment's file bytes through the page table gives the image's bytes, before and after grants. */
  lemma SourceReadable(s: Space, t: Space, src: nat, img: seq<Byte>, ph: Phdr, j: nat)
    requires Readable(s, src, img) && SegmentFits(img, ph) && Granted(s, t) && j < ph.filesz && src < U64
    ensures t.Sound() && t.Backed(Page(AddWrap(AddWrap(src, ph.offset), j)))
    ensures t.At(AddWrap(AddWrap(src, ph.offset), j)) == img[ph.offset + j]
  {
    hide Page, Preserves, AddWrap, Granted;
    NoWrap(src, ph.offset, j);
    assert ReadableByte(s, src, img, ph.offset + j);
    GrantedByte(s, t, src + (ph.offset + j));
  }

  lemma NoWrap(v: nat, o: nat, j: nat)
    requires v + (o + j) < U64
    ensures AddWrap(AddWrap(v, o), j) == v + (o + j) && AddWrap(v, o) == v + o
  {
  }

  lemma SourceData(s: Space, t: Space, src: nat, img: seq<Byte>, ph: Phdr, data: seq<Byte>)
    requires Readable(s, src, img) && SegmentFits(img, ph) && Granted(s, t) && src < U64 && t.Sound()
    requires |data| == ph.filesz
    requires forall j: nat :: j < ph.filesz ==> var w := AddWrap(AddWrap(src, ph.offset), j);
      t.Backed(Page(w)) && data[j] == t.At(w)
    ensures data == img[ph.offset..ph.offset + ph.filesz]
  {
    hide Page, Readable, Granted, AddWrap;
    forall j: nat | j < ph.filesz ensures data[j] == img[ph.offset + j] {
      SourceReadable(s, t, src, img, ph, j);
    }
  }

  /** A byte that cannot be stored lies on a page that was not mapped before and was not asked for. */
  lemma FaultIsUnasked(s: Space, t: Space, ph: Phdr, u: nat)
    requires Granted(s, t) && PlainTarget(s, ph) && InSegment(ph, u) && t.Faults(u)
    requires forall q :: Asked(ph, q) ==> q in t.table
    ensures Page(u) !in s.table && !Asked(ph, Page(u))
  {
    hide Page, Granted, PlainTarget, Asked;
    if Page(u) in t.table { PlainAfterGrant(s, t, ph, u); }
    GrantedIsKeeps(s, t);
  }

  lemma FileByteAddress(ph: Phdr, j: nat)
    requires ph.vaddr + ph.memsz + (PAGE_SIZE - 1) < U64 && ph.filesz <= ph.memsz
    ensures j < ph.filesz ==> AddWrap(ph.vaddr, j) == ph.vaddr + j && InSegment(ph, AddWrap(ph.vaddr, j))
    ensures j < ph.memsz - ph.filesz ==>
      var w := AddWrap(AddWrap(ph.vaddr, ph.filesz), j);
      w == ph.vaddr + ph.filesz + j && InSegment(ph, w)
  {
  }

  lemma NoFaultMeansMapped(t: Space, t1: Space, t2: Space, ph: Phdr, u: nat)
    requires ph.vaddr + ph.memsz + (PAGE_SIZE - 1) < U64 && ph.filesz <= ph.memsz && InSegment(ph, u)
    requires t1.table == t.table == t2.table && t1.boot == t.boot == t2.boot
    requires forall k :: 0 <= k < ph.filesz ==> !t1.Faults(AddWrap(ph.vaddr, k))
    requires forall k :: 0 <= k < ph.memsz - ph.filesz ==> !t2.Faults(AddWrap(AddWrap(ph.vaddr, ph.filesz), k))
    ensures Page(u) in t.table && Page(u) !in t.boot
  {
    hide Page, AddWrap;
    var j := u - ph.vaddr;
    if j < ph.filesz {
      FileByteAddress(ph, j);
      assert !t1.Faults(AddWrap(ph.vaddr, j));
    } else {
      FileByteAddress(ph, j - ph.filesz);
      assert !t2.Faults(AddWrap(AddWrap(ph.vaddr, ph.filesz), j - ph.filesz));
    }
  }

  /** The bytes that are cleared after the copied ones. */
  function Padding(ph: Phdr): (z: seq<Byte>)
    ensures ph.filesz <= ph.memsz ==> z == seq(ph.memsz - ph.filesz, i => 0)
  {
    seq(if ph.memsz > ph.filesz then ph.memsz - ph.filesz else 0, i => 0)
  }

  /** Copy, then clear the rest; `mid` is the state between the two. */
  method CopyAndClear(k: Kernel, ph: Phdr, data: seq<Byte>) returns (ok: bool, ghost mid: Space)
    requires k.Valid() && ph.vaddr < U64 && ph.memsz < U64 && ph.filesz < U64 && |data| == ph.filesz
    modifies k`ram
    ensures k.Valid()
    ensures ok ==> Stored(old(k.S()), mid, ph.vaddr, data) && Stored(mid, k.S(), AddWrap(ph.vaddr, ph.filesz), Padding(ph))
    ensures Keeps(old(k.S()), k.S())
    ensures ph.filesz <= ph.memsz && ph.vaddr + ph.memsz + (PAGE_SIZE - 1) < U64 ==>
      && (ok ==> forall u: nat :: InSegment(ph, u) ==> Page(u) in k.table && Page(u) !in k.boot)
      && (!ok ==> exists u: nat :: InSegment(ph, u) && k.S().Faults(u))
      && (forall u: nat :: u < U64 && old(k.S()).Backed(Page(u)) && !InSegment(ph, u) ==>
            old(k.S()).Sound() && k.S().Sound() && k.S().Backed(Page(u)) && k.S().At(u) == old(k.S()).At(u))
  {
    hide OneRole, AllFrames, NoOverflow, CursorAt, Stored, AddWrap, Page, Padding, Keeps;
    ghost var t := k.S();
    ghost var fits := ph.filesz <= ph.memsz && ph.vaddr + ph.memsz + (PAGE_SIZE - 1) < U64;
    ok := k.StoreBytes(ph.vaddr, data);
    mid := k.S();
    if !ok {
      ghost var j: nat :| j < |data| && Stored(t, k.S(), ph.vaddr, data[..j]) && k.S().Faults(AddWrap(ph.vaddr, j));
      StoredIsKeeps(t, k.S(), ph.vaddr, data[..j]);
      KeepsIsSound(t, k.S());
      StoredNone(k.S(), k.allocator.handed, k.roles, AddWrap(ph.vaddr, ph.filesz));
      if fits {
        FileByteAddress(ph, j);
        StoresStayInside(t, k.S(), k.S(), ph, data[..j], []);
      }
      return;
    }
    var zeros := Padding(ph);
    PaddingSize(ph);
    StoredIsKeeps(t, mid, ph.vaddr, data);
    ok := k.StoreBytes(AddWrap(ph.vaddr, ph.filesz), zeros);
    ghost var done := zeros;
    if !ok {
      ghost var j: nat :| j < |zeros| && Stored(mid, k.S(), AddWrap(ph.vaddr, ph.filesz), zeros[..j])
        && k.S().Faults(AddWrap(AddWrap(ph.vaddr, ph.filesz), j));
      done := zeros[..j];
      if fits { FileByteAddress(ph, j); }
    }
    StoredIsKeeps(mid, k.S(), AddWrap(ph.vaddr, ph.filesz), done);
    KeepsTransitive(t, mid, k.S());
    KeepsIsSound(t, k.S());
    if fits { StoresStayInside(t, mid, k.S(), ph, data, done); }
    if fits && ok {
      forall u: nat | InSegment(ph, u) ensures Page(u) in k.table && Page(u) !in k.boot {
        NoFaultMeansMapped(t, mid, k.S(), ph, u);
      }
    }
  }

  lemma PaddingSize(ph: Phdr)
    requires ph.memsz < U64
    ensures |Padding(ph)| == (if ph.memsz > ph.filesz then ph.memsz - ph.filesz else 0) < U64
  {
  }

  /** All pages the header asks for are mapped. */
  ghost predicate Served(t: Space, ph: Phdr) {
    forall q :: Asked(ph, q) ==> q in t.table
  }

  /** All pages of the segment are mapped. */
  ghost predicate AllMapped(t: Space, ph: Phdr) {
    forall u: nat :: InSegment(ph, u) ==> Page(u) in t.table
  }

  /** Some byte of the segment is on a page that is not mapped and that the header does not ask for. */
  ghost predicate Lacking(t: Space, ph: Phdr) {
    exists u: nat :: InSegment(ph, u) && Page(u) !in t.table && !Asked(ph, Page(u))
  }

  /** One loadable segment. */
  method LoadSegment(k: Kernel, src: nat, ph: Phdr, ghost img: seq<Byte>) returns (r: Outcome)
    requires k.Valid() && src < U64
    requires ph.offset < U64 && ph.vaddr < U64 && ph.filesz < U64 && ph.memsz < U64
    modifies k, k.allocator
    ensures k.Valid() && Keeps(old(k.S()), k.S())
    ensures ph.filesz <= ph.memsz && ph.vaddr + ph.memsz + (PAGE_SIZE - 1) < U64 ==> SegmentFrame(old(k.S()), k.S(), ph)
    ensures r.Done? && Readable(old(k.S()), src, img) && SegmentFits(img, ph) && PlainTarget(old(k.S()), ph) ==>
      && k.S().Sound() && SegmentAt(k.S(), img, ph, 0)
      && (k.mapErrors == old(k.mapErrors) ==> Served(k.S(), ph)) && AllMapped(k.S(), ph)
    ensures k.mapErrors >= old(k.mapErrors)
    ensures r.OutOfMemory? ==> k.allocator.handed == |k.S().all|
    ensures r.Panicked? && Readable(old(k.S()), src, img) && SegmentFits(img, ph) && PlainTarget(old(k.S()), ph) ==>
      k.mapErrors == old(k.mapErrors) ==> Lacking(old(k.S()), ph)
  {
    hide OneRole, AllFrames, NoOverflow, CursorAt, Preserves, Granted, Stored, Keeps, Readable, PlainTarget, AddWrap,
         SegmentAt,
         Asked, SegmentFrame, Page, Padding;
    ghost var s := k.S();
    var halted := GrantSegment(k, ph);
    ghost var t := k.S();
    GrantedIsKeeps(s, t);
    KeepsIsSound(s, t);
    KeepsItself(s, t);
    GrantThenStore(s, t, t, ph);
    if halted {
      return OutOfMemory;
    }
    ghost var good := Readable(s, src, img) && SegmentFits(img, ph) && PlainTarget(s, ph);
    var ok, data := k.LoadBytes(AddWrap(src, ph.offset), ph.filesz);
    if !ok {
      if good {
        ghost var j: nat :| j < ph.filesz && !t.Backed(Page(AddWrap(AddWrap(src, ph.offset), j)));
        SourceReadable(s, t, src, img, ph, j);
      }
      return Panicked;
    }
    if good { SourceData(s, t, src, img, ph, data); }
    ghost var mid;
    ok, mid := CopyAndClear(k, ph, data);
    KeepsTransitive(s, t, k.S());
    KeepsIsSound(s, k.S());
    if ph.filesz <= ph.memsz && ph.vaddr + ph.memsz + (PAGE_SIZE - 1) < U64 { GrantThenStore(s, t, k.S(), ph); }
    if !ok {
      if good && k.mapErrors == old(k.mapErrors) {
        ghost var u: nat :| InSegment(ph, u) && k.S().Faults(u);
        assert t.Faults(u) by { assert k.S().Faults(u); }
        FaultIsUnasked(s, t, ph, u);
      }
      return Panicked;
    }
    if good { CopyThenClear(s, t, mid, k.S(), img, ph, data, Padding(ph)); }
    return Done;
  }

  /** One of the first `n` loadable headers asks for page `q`. */
  ghost predicate AskedBy(img: seq<Byte>, n: nat, q: nat)
    requires WellFormed(img, PHDR_SIZE) && n <= Phnum(img, 0)
  {
    exists i: nat :: i < n && Header(img, PHDR_SIZE, i).loadable && Asked(Header(img, PHDR_SIZE, i), q)
  }

  /** The address lies in none of the first `n` loadable segments. */
  ghost predicate OutsideSegments(img: seq<Byte>, n: nat, u: nat)
    requires WellFormed(img, PHDR_SIZE) && n <= Phnum(img, 0)
  {
    forall i: nat :: i < n && Header(img, PHDR_SIZE, i).loadable ==> !InSegment(Header(img, PHDR_SIZE, i), u)
  }

  /** Byte `u` of segment `i` lies on a page that was not mapped and that no header up to this one asks for. */
  ghost predicate Missing(s: Space, img: seq<Byte>, i: nat, u: nat)
    requires WellFormed(img, PHDR_SIZE) && i < Phnum(img, 0)
  {
    && Header(img, PHDR_SIZE, i).loadable && InSegment(Header(img, PHDR_SIZE, i), u)
    && Page(u) !in s.table && !AskedBy(img, i + 1, Page(u))
  }

  /** Some byte of the first `n` segments is missing when its turn comes. */
  ghost predicate Starved(s: Space, img: seq<Byte>, n: nat)
    requires WellFormed(img, PHDR_SIZE) && n <= Phnum(img, 0)
  {
    exists i: nat, u: nat :: i < n && Missing(s, img, i, u)
  }

  /** After `n` headers: no byte seen outside their segments changed, and only pages asked for became mapped. */
  ghost predicate UserFrame(s: Space, t: Space, img: seq<Byte>, n: nat)
    requires WellFormed(img, PHDR_SIZE) && n <= Phnum(img, 0)
  {
    && Keeps(s, t)
    && (forall u: nat :: u < U64 && s.Backed(Page(u)) && OutsideSegments(img, n, u) ==>
          t.Backed(Page(u)) && t.At(u) == s.At(u))
    && (forall p :: p in t.table ==> p in s.table || (t.Backed(p) && AskedBy(img, n, p)))
  }

  /** All pages asked for by the first `n` headers are mapped. */
  ghost predicate AllServed(t: Space, img: seq<Byte>, n: nat)
    requires WellFormed(img, PHDR_SIZE) && n <= Phnum(img, 0)
  {
    forall q :: AskedBy(img, n, q) ==> q in t.table
  }

  lemma StillPlain(s: Space, t: Space, img: seq<Byte>, n: nat, ph: Phdr)
    requires WellFormed(img, PHDR_SIZE) && n <= Phnum(img, 0) && UserFrame(s, t, img, n) && PlainTarget(s, ph)
    ensures PlainTarget(t, ph)
  {
    hide Page, AskedBy, OutsideSegments;
    forall u: nat | InSegment(ph, u) && Page(u) in t.table ensures t.Backed(Page(u)) {
      if Page(u) in s.table { assert s.Backed(Page(u)); }
    }
  }

  /** A page asked for by a header is asked for by the headers up to it, and the other way round. */
  lemma AskedByOneMore(img: seq<Byte>, n: nat)
    requires WellFormed(img, PHDR_SIZE) && n < Phnum(img, 0)
    ensures forall q :: AskedBy(img, n + 1, q) <==>
              AskedBy(img, n, q) || (Header(img, PHDR_SIZE, n).loadable && Asked(Header(img, PHDR_SIZE, n), q))
  {
    hide Header, Asked, Phnum;
    var m := n + 1;
    forall q ensures AskedBy(img, m, q) <==>
        AskedBy(img, n, q) || (Header(img, PHDR_SIZE, n).loadable && Asked(Header(img, PHDR_SIZE, n), q))
    {
      if AskedBy(img, m, q) {
        var i: nat :| i < m && Header(img, PHDR_SIZE, i).loadable && Asked(Header(img, PHDR_SIZE, i), q);
      }
    }
  }

  lemma UserFrameStep(s: Space, t: Space, t2: Space, img: seq<Byte>, n: nat)
    requires WellFormed(img, PHDR_SIZE) && n < Phnum(img, 0)
    requires UserFrame(s, t, img, n) && Header(img, PHDR_SIZE, n).loadable && SegmentFrame(t, t2, Header(img, PHDR_SIZE, n))
    ensures UserFrame(s, t2, img, n + 1)
  {
    hide Page, Keeps, Header, InSegment, SegmentFits, AskedBy, Asked;
    var ph := Header(img, PHDR_SIZE, n);
    AskedByOneMore(img, n);
    KeepsTransitive(s, t, t2);
    KeepsIsSound(t, t2);
    forall p | p in t2.table ensures p in s.table || (t2.Backed(p) && AskedBy(img, n + 1, p)) {
      if p !in s.table && p in t.table { StillBacked(t, t2, p); }
    }
    assert forall u: nat :: OutsideSegments(img, n + 1, u) ==> OutsideSegments(img, n, u) && !InSegment(ph, u);
  }

  lemma StillReadable(t: Space, t2: Space, src: nat, img: seq<Byte>, n: nat)
    requires WellFormed(img, PHDR_SIZE) && OffSource(img, src) && n < Phnum(img, 0) && Readable(t, src, img)
    requires Header(img, PHDR_SIZE, n).loadable && SegmentFrame(t, t2, Header(img, PHDR_SIZE, n))
    ensures Readable(t2, src, img)
  {
    hide Page, Keeps, Header, InSegment, Asked;
    KeepsIsSound(t, t2);
    forall j: nat | j < |img| ensures ReadableByte(t2, src, img, j) {
      assert ReadableByte(t, src, img, j);
      assert !(InSegment(Header(img, PHDR_SIZE, n), src + j) && src <= src + j < src + |img|);
    }
  }

  // ---- What the segments put where ----

  /** Header `i` has a loadable segment around the address `u`. */
  ghost predicate Around(img: seq<Byte>, i: nat, u: nat)
    requires WellFormed(img, PHDR_SIZE) && i < Phnum(img, 0)
  {
    Header(img, PHDR_SIZE, i).loadable && InSegment(Header(img, PHDR_SIZE, i), u)
  }

  /** What it puts there. */
  ghost function ByteOf(img: seq<Byte>, i: nat, u: nat): Byte
    requires WellFormed(img, PHDR_SIZE) && i < Phnum(img, 0) && Around(img, i, u)
  {
    Expected(img, Header(img, PHDR_SIZE, i), u - Header(img, PHDR_SIZE, i).vaddr)
  }

  /** The last of the first `n` headers with a loadable segment around `u`, or -1. */
  ghost function LastAround(img: seq<Byte>, n: nat, u: nat): (j: int)
    requires WellFormed(img, PHDR_SIZE) && n <= Phnum(img, 0)
    ensures -1 <= j < n
  {
    if n == 0 then -1 else if Around(img, n - 1, u) then n - 1 else LastAround(img, n - 1, u)
  }

  lemma {:induction false} LastAroundFacts(img: seq<Byte>, n: nat, u: nat)
    requires WellFormed(img, PHDR_SIZE) && n <= Phnum(img, 0)
    ensures var j := LastAround(img, n, u);
            && (j >= 0 ==> Around(img, j, u))
            && forall i: nat :: j < i < n ==> !Around(img, i, u)
  {
    hide WellFormed, Around, Phnum;
    if n > 0 && !Around(img, n - 1, u) { LastAroundFacts(img, n - 1, u); }
  }

  /** What the last of the first `n` segments around `u` puts there, if there is one. */
  ghost function FinalByte(img: seq<Byte>, n: nat, u: nat): Option<Byte>
    requires WellFormed(img, PHDR_SIZE) && n <= Phnum(img, 0)
  {
    var j := LastAround(img, n, u);
    if j >= 0 && Around(img, j, u) then Some(ByteOf(img, j, u)) else None
  }

  lemma FinalByteFrom(img: seq<Byte>, n: nat, u: nat) returns (j: nat)
    requires WellFormed(img, PHDR_SIZE) && n <= Phnum(img, 0) && FinalByte(img, n, u).Some?
    ensures j < n && Around(img, j, u) && FinalByte(img, n, u) == Some(ByteOf(img, j, u))
  {
    hide WellFormed, Around, ByteOf, Phnum, LastAround;
    LastAroundFacts(img, n, u);
    j := LastAround(img, n, u);
  }

  lemma FinalByteExists(img: seq<Byte>, n: nat, u: nat, i: nat)
    requires WellFormed(img, PHDR_SIZE) && i < n <= Phnum(img, 0) && Around(img, i, u)
    ensures FinalByte(img, n, u).Some?
  {
    hide WellFormed, Around, ByteOf, Phnum, LastAround;
    LastAroundFacts(img, n, u);
  }

  lemma FinalByteStep(img: seq<Byte>, n: nat, u: nat)
    requires WellFormed(img, PHDR_SIZE) && n < Phnum(img, 0)
    ensures FinalByte(img, n + 1, u) == if Around(img, n, u) then Some(ByteOf(img, n, u)) else FinalByte(img, n, u)
  {
    hide WellFormed, Around, ByteOf, Phnum;
  }

  /** The address holds what the last of the first `n` segments around it puts there. */
  ghost predicate LaidByte(t: Space, img: seq<Byte>, n: nat, u: nat)
    requires t.Sound() && WellFormed(img, PHDR_SIZE) && n <= Phnum(img, 0)
  {
    var b := FinalByte(img, n, u);
    b.Some? ==> u < U64 && t.Backed(Page(u)) && t.At(u) == b.value
  }

  ghost predicate Laid(t: Space, img: seq<Byte>, n: nat)
    requires t.Sound() && WellFormed(img, PHDR_SIZE) && n <= Phnum(img, 0)
  {
    forall u: nat :: LaidByte(t, img, n, u)
  }

  /** A segment in place holds its bytes. */
  lemma SegmentByteLaid(t: Space, img: seq<Byte>, i: nat, u: nat)
    requires t.Sound() && WellFormed(img, PHDR_SIZE) && i < Phnum(img, 0) && Around(img, i, u)
    requires SegmentFits(img, Header(img, PHDR_SIZE, i)) && SegmentAt(t, img, Header(img, PHDR_SIZE, i), 0)
    ensures u < U64 && t.Backed(Page(u)) && t.At(u) == ByteOf(img, i, u)
  {
    hide Page, Header, Expected;
    assert ByteAt(t, img, Header(img, PHDR_SIZE, i), 0, u - Header(img, PHDR_SIZE, i).vaddr);
  }

  /** One more segment: its own bytes are in place, the others are as they were. */
  lemma LaidStep(t: Space, t2: Space, img: seq<Byte>, n: nat)
    requires WellFormed(img, PHDR_SIZE) && n < Phnum(img, 0) && t.Sound() && t2.Sound() && Laid(t, img, n)
    requires Header(img, PHDR_SIZE, n).loadable && SegmentFits(img, Header(img, PHDR_SIZE, n))
    requires SegmentFrame(t, t2, Header(img, PHDR_SIZE, n)) && SegmentAt(t2, img, Header(img, PHDR_SIZE, n), 0)
    ensures Laid(t2, img, n + 1)
  {
    hide Page, Keeps, Header, SegmentAt, ByteOf, InSegment, SegmentFits, Asked, Phnum, FinalByte;
    var m := n + 1;
    forall u: nat ensures LaidByte(t2, img, m, u) {
      FinalByteStep(img, n, u);
      if Around(img, n, u) {
        SegmentByteLaid(t2, img, n, u);
      } else {
        assert LaidByte(t, img, n, u);
      }
    }
  }

  lemma LaidSkip(t: Space, img: seq<Byte>, n: nat)
    requires WellFormed(img, PHDR_SIZE) && n < Phnum(img, 0) && t.Sound() && Laid(t, img, n)
    requires !Header(img, PHDR_SIZE, n).loadable
    ensures Laid(t, img, n + 1)
  {
    hide Page, Header, ByteOf, InSegment, Phnum, FinalByte;
    var m := n + 1;
    forall u: nat ensures LaidByte(t, img, m, u) {
      FinalByteStep(img, n, u);
      assert LaidByte(t, img, n, u);
    }
  }

  /** The two images prescribe the same byte wherever both have a segment. */
  ghost predicate Agree(a: seq<Byte>, b: seq<Byte>)
    requires WellFormed(a, PHDR_SIZE) && WellFormed(b, PHDR_SIZE)
  {
    forall i: nat, j: nat, u: nat :: i < Phnum(a, 0) && j < Phnum(b, 0) && Around(a, i, u) && Around(b, j, u) ==>
      ByteOf(a, i, u) == ByteOf(b, j, u)
  }

  lemma AgreeAt(a: seq<Byte>, b: seq<Byte>, i: nat, j: nat, u: nat)
    requires WellFormed(a, PHDR_SIZE) && WellFormed(b, PHDR_SIZE) && Agree(a, b)
    requires i < Phnum(a, 0) && j < Phnum(b, 0) && Around(a, i, u) && Around(b, j, u)
    ensures ByteOf(a, i, u) == ByteOf(b, j, u)
  {
    hide Around, ByteOf, WellFormed, Phnum;
  }

  /** An image in memory shows every byte that it prescribes. */
  lemma ImageByte(t: Space, img: seq<Byte>, i: nat, u: nat)
    requires t.Sound() && WellFormed(img, PHDR_SIZE) && ImageAt(t, img, PHDR_SIZE, 0, Phnum(img, 0))
    requires i < Phnum(img, 0) && Around(img, i, u)
    ensures u < U64 && t.Backed(Page(u)) && t.At(u) == ByteOf(img, i, u)
  {
    hide Page, Header, SegmentAt, ByteOf, SegmentFits, Phnum;
    FitsIfWellFormed(img, PHDR_SIZE, i);
    SegmentByteLaid(t, img, i, u);
  }

  /** And it is in memory if it shows all of them. */
  lemma BytesMakeImage(t: Space, img: seq<Byte>)
    requires t.Sound() && WellFormed(img, PHDR_SIZE)
    requires forall i: nat, u: nat :: i < Phnum(img, 0) && Around(img, i, u) ==> t.Backed(Page(u)) && t.At(u) == ByteOf(img, i, u)
    ensures ImageAt(t, img, PHDR_SIZE, 0, Phnum(img, 0))
  {
    hide Page, Header, ByteOf, SegmentFits, Phnum, SegmentAt, Around;
    forall i: nat | i < Phnum(img, 0) && Header(img, PHDR_SIZE, i).loadable
      ensures SegmentFits(img, Header(img, PHDR_SIZE, i)) && SegmentAt(t, img, Header(img, PHDR_SIZE, i), 0)
    {
      FitsIfWellFormed(img, PHDR_SIZE, i);
      BytesMakeSegment(t, img, i);
    }
  }

  lemma BytesMakeSegment(t: Space, img: seq<Byte>, i: nat)
    requires t.Sound() && WellFormed(img, PHDR_SIZE) && i < Phnum(img, 0) && Header(img, PHDR_SIZE, i).loadable
    requires SegmentFits(img, Header(img, PHDR_SIZE, i))
    requires forall u: nat :: Around(img, i, u) ==> t.Backed(Page(u)) && t.At(u) == ByteOf(img, i, u)
    ensures SegmentAt(t, img, Header(img, PHDR_SIZE, i), 0)
  {
    var ph := Header(img, PHDR_SIZE, i);
    hide Page, Header, Expected, SegmentFits, Phnum, WellFormed;
    forall k: nat | k < ph.memsz ensures ByteAt(t, img, ph, 0, k) {
      assert Around(img, i, ph.vaddr + k);
      PlainAddress(img, ph, k);
    }
  }

  lemma PlainAddress(img: seq<Byte>, ph: Phdr, k: nat)
    requires SegmentFits(img, ph) && k < ph.memsz
    ensures ph.vaddr + k < U64 && Relocate(ph.vaddr + k, 0) == ph.vaddr + k
  {
  }

  /** Two images that are in memory together agree. */
  lemma TogetherAgree(t: Space, a: seq<Byte>, b: seq<Byte>)
    requires t.Sound() && WellFormed(a, PHDR_SIZE) && WellFormed(b, PHDR_SIZE)
    requires ImageAt(t, a, PHDR_SIZE, 0, Phnum(a, 0)) && ImageAt(t, b, PHDR_SIZE, 0, Phnum(b, 0))
    ensures Agree(a, b)
  {
    hide Around, ByteOf, Header, HasMagic, Phnum, ImageAt, Page;
    forall i: nat, j: nat, u: nat | i < Phnum(a, 0) && j < Phnum(b, 0) && Around(a, i, u) && Around(b, j, u)
      ensures ByteOf(a, i, u) == ByteOf(b, j, u)
    {
      ImageByte(t, a, i, u);
      ImageByte(t, b, j, u);
    }
  }

  /** After a load every segment can be read back if and only if overlapping segments prescribe the same bytes. */
  lemma LaidIff(t: Space, img: seq<Byte>)
    requires t.Sound() && WellFormed(img, PHDR_SIZE) && Laid(t, img, Phnum(img, 0))
    ensures ImageAt(t, img, PHDR_SIZE, 0, Phnum(img, 0)) <==> Agree(img, img)
  {
    hide Around, ByteOf, Header, HasMagic, Phnum, ImageAt, Page, FinalByte;
    if ImageAt(t, img, PHDR_SIZE, 0, Phnum(img, 0)) { TogetherAgree(t, img, img); }
    if Agree(img, img) {
      forall i: nat, u: nat | i < Phnum(img, 0) && Around(img, i, u) ensures t.Backed(Page(u)) && t.At(u) == ByteOf(img, i, u) {
        assert LaidByte(t, img, Phnum(img, 0), u);
        FinalByteExists(img, Phnum(img, 0), u, i);
        var j := FinalByteFrom(img, Phnum(img, 0), u);
        AgreeAt(img, img, i, j, u);
      }
      BytesMakeImage(t, img);
    }
  }

  lemma StillBacked(s: Space, t: Space, p: nat)
    requires Keeps(s, t) && s.Backed(p)
    ensures t.Backed(p)
  {
  }

  lemma UserFrameNone(s: Space, img: seq<Byte>)
    requires WellFormed(img, PHDR_SIZE) && Keeps(s, s)
    ensures UserFrame(s, s, img, 0) && !Starved(s, img, 0) && AllServed(s, img, 0) && Laid(s, img, 0)
  {
  }

  lemma UserFrameSkip(s: Space, t: Space, img: seq<Byte>, n: nat)
    requires WellFormed(img, PHDR_SIZE) && n < Phnum(img, 0) && UserFrame(s, t, img, n)
    ensures UserFrame(s, t, img, n + 1)
  {
    hide Page, Keeps, Header, AskedBy;
    AskedByOneMore(img, n);
    assert forall u: nat :: OutsideSegments(img, n + 1, u) ==> OutsideSegments(img, n, u);
  }

  lemma {:induction false} UserFrameMore(s: Space, t: Space, img: seq<Byte>, n: nat, m: nat)
    requires WellFormed(img, PHDR_SIZE) && n <= m <= Phnum(img, 0) && UserFrame(s, t, img, n)
    ensures UserFrame(s, t, img, m)
    decreases m - n
  {
    hide UserFrame;
    if n < m {
      UserFrameSkip(s, t, img, n);
      UserFrameMore(s, t, img, n + 1, m);
    }
  }

  /** The segment that was loaded last missed nothing, and if its requests were all served nothing is missing. */
  lemma NotStarvedStep(s: Space, t2: Space, img: seq<Byte>, n: nat)
    requires WellFormed(img, PHDR_SIZE) && n < Phnum(img, 0) && !Starved(s, img, n)
    requires UserFrame(s, t2, img, n + 1)
    requires Header(img, PHDR_SIZE, n).loadable ==> AllMapped(t2, Header(img, PHDR_SIZE, n))
    ensures !Starved(s, img, n + 1)
  {
    hide Page, Keeps, Header, InSegment, AskedBy, OutsideSegments, Phnum;
    forall i: nat, u: nat | i < n + 1 ensures !Missing(s, img, i, u) {
    }
  }

  /** What stops a load: with all requests so far served, a byte that faults is missing. */
  lemma FaultIsMissing(s: Space, t: Space, img: seq<Byte>, n: nat, u: nat)
    requires WellFormed(img, PHDR_SIZE) && n < Phnum(img, 0) && UserFrame(s, t, img, n) && AllServed(t, img, n)
    requires Header(img, PHDR_SIZE, n).loadable && InSegment(Header(img, PHDR_SIZE, n), u)
    requires Page(u) !in t.table && !Asked(Header(img, PHDR_SIZE, n), Page(u))
    ensures Missing(s, img, n, u)
  {
    hide Page, Header, InSegment, AskedBy, Asked, OutsideSegments;
    AskedByOneMore(img, n);
  }

  /** Reading `n` bytes of the image at offset `at` gives those bytes. */
  lemma ReadSlice(t: Space, src: nat, img: seq<Byte>, at: nat, data: seq<Byte>)
    requires Readable(t, src, img) && src < U64 && at + |data| <= |img|
    requires forall j: nat :: j < |data| ==> var w := AddWrap(AddWrap(src, at), j);
      t.Backed(Page(w)) && data[j] == t.At(w)
    ensures data == img[at..at + |data|]
  {
    hide Page, AddWrap;
    forall j: nat | j < |data| ensures data[j] == img[at + j] {
      assert ReadableByte(t, src, img, at + j);
      NoWrap(src, at, j);
    }
  }

  lemma ReadNeverFails(t: Space, src: nat, img: seq<Byte>, at: nat, j: nat)
    requires Readable(t, src, img) && src < U64 && at + j < |img|
    ensures t.Backed(Page(AddWrap(AddWrap(src, at), j)))
  {
    hide Page, AddWrap;
    assert ReadableByte(t, src, img, at + j);
    NoWrap(src, at, j);
  }

  lemma HeaderBytes(img: seq<Byte>, i: nat, b: seq<Byte>)
    requires WellFormed(img, PHDR_SIZE) && i < Phnum(img, 0)
    requires |b| == PHDR_SIZE && b == img[HeaderPos(img, PHDR_SIZE, i)..HeaderPos(img, PHDR_SIZE, i) + PHDR_SIZE]
    ensures PhdrAt(b, 0) == Header(img, PHDR_SIZE, i)
  {
    hide PhdrAt;
    PhdrOfSlice(img, HeaderPos(img, PHDR_SIZE, i), b, 0);
  }

  lemma WellFormedHeader(img: seq<Byte>, i: nat)
    requires WellFormed(img, PHDR_SIZE) && i < Phnum(img, 0)
    ensures EHDR_SIZE <= |img| && HeaderPos(img, PHDR_SIZE, i) + PHDR_SIZE <= |img|
    ensures Header(img, PHDR_SIZE, i).loadable ==> SegmentFits(img, Header(img, PHDR_SIZE, i))
  {
  }

  lemma HeaderAddress(src: nat, img: seq<Byte>, i: nat)
    requires src < U64 && src + |img| <= U64 && EHDR_SIZE <= |img|
    requires HeaderPos(img, PHDR_SIZE, i) + PHDR_SIZE <= |img|
    ensures AddWrap(AddWrap(src, Phoff(img, 0)), i * PHDR_SIZE) == AddWrap(src, HeaderPos(img, PHDR_SIZE, i))
  {
    hide Phoff, AddWrap;
    NoWrap(src, Phoff(img, 0), i * PHDR_SIZE);
    NoWrap(src, HeaderPos(img, PHDR_SIZE, i), 0);
  }

  /** Reads program header `i`; it faults on a header outside memory. */
  method ReadHeader(k: Kernel, src: nat, phoff: nat, i: nat, ghost img: seq<Byte>) returns (ok: bool, ph: Phdr)
    requires k.Valid() && src < U64
    ensures ok ==> ph.offset < U64 && ph.vaddr < U64 && ph.filesz < U64 && ph.memsz < U64
    ensures EHDR_SIZE <= |img| && Readable(k.S(), src, img) && WellFormed(img, PHDR_SIZE) ==>
      i < Phnum(img, 0) && phoff == Phoff(img, 0) ==> ok && ph == Header(img, PHDR_SIZE, i)
  {
    hide OneRole, AllFrames, NoOverflow, CursorAt, AddWrap, PhdrAt, WellFormed, Phoff, Phnum, HeaderPos, Page, Header;
    ghost var t := k.S();
    ghost var good := EHDR_SIZE <= |img| && Readable(t, src, img) && WellFormed(img, PHDR_SIZE) && i < Phnum(img, 0) && phoff == Phoff(img, 0);
    if good { WellFormedHeader(img, i); HeaderAddress(src, img, i); }
    var at := AddWrap(AddWrap(src, phoff), i * PHDR_SIZE);
    var done, bytes := k.LoadBytes(at, PHDR_SIZE);
    if !done {
      if good {
        ghost var j: nat :| j < PHDR_SIZE && !t.Backed(Page(AddWrap(at, j)));
        ReadNeverFails(t, src, img, HeaderPos(img, PHDR_SIZE, i), j);
      }
      return false, Phdr(false, 0, 0, 0, 0);
    }
    if good {
      ReadSlice(t, src, img, HeaderPos(img, PHDR_SIZE, i), bytes);
      HeaderBytes(img, i, bytes);
    }
    return true, PhdrAt(bytes, 0);
  }

  /** The image is well formed and its segments do not overlap it. */
  ghost predicate Safe(img: seq<Byte>, src: nat) {
    WellFormed(img, PHDR_SIZE) && OffSource(img, src)
  }

  /** What is known after `n` headers; `clean` says that the page-table code has not failed. */
  ghost predicate LoadState(s: Space, t: Space, src: nat, img: seq<Byte>, n: nat, clean: bool) {
    && Keeps(s, t) && t.Sound()
    && (Safe(img, src) ==> n <= Phnum(img, 0) && UserFrame(s, t, img, n) && Readable(t, src, img))
    && (UserLoadable(s, src, img) ==>
          && n <= Phnum(img, 0) && Laid(t, img, n) && !Starved(s, img, n)
          && (clean ==> AllServed(t, img, n)))
  }

  /** What holds however the load ends. */
  ghost predicate EndState(s: Space, t: Space, src: nat, img: seq<Byte>) {
    && Keeps(s, t) && t.Sound()
    && (Safe(img, src) ==> UserFrame(s, t, img, Phnum(img, 0)) && Readable(t, src, img))
  }

  lemma LoadStateStart(s: Space, src: nat, img: seq<Byte>)
    requires Keeps(s, s) && Readable(s, src, img)
    ensures LoadState(s, s, src, img, 0, true)
  {
    hide Keeps, Readable, UserFrame, Starved, AllServed, Laid, OffSource, PlainTarget, Phnum, Header;
    KeepsIsSound(s, s);
    if WellFormed(img, PHDR_SIZE) { UserFrameNone(s, img); }
  }

  lemma LoadStateEnds(s: Space, t: Space, src: nat, img: seq<Byte>, n: nat, clean: bool)
    requires LoadState(s, t, src, img, n, clean)
    ensures EndState(s, t, src, img)
  {
    hide Keeps, Readable, UserFrame, Starved, AllServed, Laid, OffSource, UserLoadable, Phnum, Header, HasMagic;
    if Safe(img, src) { UserFrameMore(s, t, img, n, Phnum(img, 0)); }
  }

  /** A segment was tried: nothing outside it changed. */
  lemma SegmentTried(s: Space, t: Space, t2: Space, src: nat, img: seq<Byte>, n: nat, clean: bool)
    requires LoadState(s, t, src, img, n, clean) && Keeps(t, t2)
    requires Safe(img, src) ==> n < Phnum(img, 0) && Header(img, PHDR_SIZE, n).loadable
    requires Safe(img, src) ==> SegmentFrame(t, t2, Header(img, PHDR_SIZE, n))
    ensures EndState(s, t2, src, img) && (Safe(img, src) ==> UserFrame(s, t2, img, n + 1))
  {
    hide Keeps, Readable, UserFrame, Starved, AllServed, Laid, OffSource, UserLoadable, Phnum, WellFormed, Header,
         SegmentFrame;
    KeepsTransitive(s, t, t2);
    KeepsIsSound(t, t2);
    if Safe(img, src) { SafeStep(s, t, t2, src, img, n); }
  }

  /** A segment is in place. */
  lemma SegmentDone(s: Space, t: Space, t2: Space, src: nat, img: seq<Byte>, n: nat, clean: bool)
    requires LoadState(s, t, src, img, n, clean) && EndState(s, t2, src, img) && Keeps(t, t2)
    requires Safe(img, src) ==> n < Phnum(img, 0) && Header(img, PHDR_SIZE, n).loadable && UserFrame(s, t2, img, n + 1)
    requires Safe(img, src) ==> SegmentFrame(t, t2, Header(img, PHDR_SIZE, n))
    requires UserLoadable(s, src, img) && Safe(img, src) ==>
      var ph := Header(img, PHDR_SIZE, n);
      SegmentFits(img, ph) && SegmentAt(t2, img, ph, 0) && AllMapped(t2, ph) && (clean ==> Served(t2, ph))
    ensures LoadState(s, t2, src, img, n + 1, clean)
  {
    hide Keeps, Readable, UserFrame, Starved, AllServed, Laid, OffSource, UserLoadable, Phnum, WellFormed, Header,
         SegmentFrame,
         SegmentFits, SegmentAt, AllMapped, Served;
    if UserLoadable(s, src, img) {
      LoadableIsSafe(s, src, img);
      GoodStep(s, t, t2, img, n, clean);
    }
  }

  lemma HeaderSkipped(s: Space, t: Space, src: nat, img: seq<Byte>, n: nat, clean: bool)
    requires LoadState(s, t, src, img, n, clean)
    requires Safe(img, src) ==> n < Phnum(img, 0) && !Header(img, PHDR_SIZE, n).loadable
    ensures LoadState(s, t, src, img, n + 1, clean)
  {
    hide Keeps, Readable, UserFrame, Starved, AllServed, Laid, OffSource, UserLoadable, Phnum, WellFormed, Header;
    if Safe(img, src) { UserFrameSkip(s, t, img, n); }
    if UserLoadable(s, src, img) {
      LoadableIsSafe(s, src, img);
      GoodSkip(s, t, img, n, clean);
    }
  }

  lemma LoadStateWeaker(s: Space, t: Space, src: nat, img: seq<Byte>, n: nat, clean: bool)
    requires LoadState(s, t, src, img, n, clean)
    ensures LoadState(s, t, src, img, n, false) && Keeps(s, t) && t.Sound() && (Safe(img, src) ==> Readable(t, src, img))
  {
  }

  /** What the segment's own load needs. */
  lemma SegmentReady(s: Space, t: Space, src: nat, img: seq<Byte>, n: nat, clean: bool)
    requires LoadState(s, t, src, img, n, clean) && Safe(img, src) && n < Phnum(img, 0) && Header(img, PHDR_SIZE, n).loadable
    ensures var ph := Header(img, PHDR_SIZE, n);
            && SegmentFits(img, ph) && ph.filesz <= ph.memsz && ph.vaddr + ph.memsz + (PAGE_SIZE - 1) < U64
            && (UserLoadable(s, src, img) ==> PlainTarget(t, ph))
  {
    hide Keeps, Readable, UserFrame, Starved, AllServed, Laid, OffSource, UserLoadable, Phnum, Header, PlainTarget;
    SegmentInFile(img, n);
    if UserLoadable(s, src, img) {
      PlainHeader(s, src, img, n);
      StillPlain(s, t, img, n, Header(img, PHDR_SIZE, n));
    }
  }

  lemma SegmentFailed(s: Space, t: Space, src: nat, img: seq<Byte>, n: nat)
    requires LoadState(s, t, src, img, n, true) && UserLoadable(s, src, img) && n < Phnum(img, 0)
    requires Header(img, PHDR_SIZE, n).loadable && Lacking(t, Header(img, PHDR_SIZE, n))
    ensures Starved(s, img, Phnum(img, 0))
  {
    hide Keeps, Readable, UserFrame, Starved, AllServed, Laid, OffSource, UserLoadable, Phnum, WellFormed, Header, Lacking;
    LoadableIsSafe(s, src, img);
    FaultMeansStarved(s, t, img, n);
  }

  /** One turn of the header loop. `s` is the memory at the start of the load, `errors` the page-table errors then. */
  method LoadHeader(k: Kernel, src: nat, phoff: nat, i: nat, ghost img: seq<Byte>, ghost s: Space, ghost errors: nat)
    returns (r: Outcome)
    requires k.Valid() && src < U64 && k.mapErrors >= errors
    requires LoadState(s, k.S(), src, img, i, k.mapErrors == errors)
    requires Safe(img, src) ==> i < Phnum(img, 0) && phoff == Phoff(img, 0)
    modifies k, k.allocator
    ensures k.Valid() && k.mapErrors >= old(k.mapErrors) && EndState(s, k.S(), src, img)
    ensures r.Done? ==> LoadState(s, k.S(), src, img, i + 1, k.mapErrors == errors)
    ensures Safe(img, src) && NoLoadHeaders(img, PHDR_SIZE) ==>
      r.Done? && k.S() == old(k.S()) && k.allocator.handed == old(k.allocator.handed)
    ensures r.OutOfMemory? ==> k.allocator.handed == |k.S().all|
    ensures r.Panicked? && UserLoadable(s, src, img) && k.mapErrors == errors ==>
      WellFormed(img, PHDR_SIZE) && Starved(s, img, Phnum(img, 0))
  {
    hide OneRole, AllFrames, NoOverflow, CursorAt, SegmentAt, Keeps, PlainTarget, OffSource, Readable, Starved, Asked,
         WellFormed, Header, Phoff, Phnum, SegmentFrame, LoadState, EndState, UserLoadable, Served, AllMapped, Lacking,
         SegmentFits;
    ghost var t, clean := k.S(), k.mapErrors == errors;
    ghost var safe, good := Safe(img, src), UserLoadable(s, src, img);
    if good { LoadableIsSafe(s, src, img); }
    LoadStateEnds(s, t, src, img, i, clean);
    LoadStateWeaker(s, t, src, img, i, clean);
    if safe { WellFormedHeader(img, i); }
    var done, ph := ReadHeader(k, src, phoff, i, img);
    if !done {
      return Panicked;
    }
    if safe && NoLoadHeaders(img, PHDR_SIZE) { NoLoadHeader(img, PHDR_SIZE, i); }
    if !ph.loadable {
      HeaderSkipped(s, t, src, img, i, clean);
      return Done;
    }
    if safe { SegmentReady(s, t, src, img, i, clean); }
    r := LoadSegment(k, src, ph, img);
    SegmentTried(s, t, k.S(), src, img, i, clean);
    if r.Done? {
      if k.mapErrors == errors {
        SegmentDone(s, t, k.S(), src, img, i, true);
      } else {
        SegmentDone(s, t, k.S(), src, img, i, false);
      }
    }
    if r.Panicked? && good && k.mapErrors == errors { SegmentFailed(s, t, src, img, i); }
  }

  /** `elf::load` on the `len` bytes at `src`. However the call ends, mappings are kept; and for a well-formed image that
      is not overlapped by its own segments, no byte seen outside the segments changed and only pages asked for became
      mapped. If the image is loadable and the call returns an entry point, every byte of a segment is what the last segment
      around it puts there, and all segments can be read back exactly if overlapping ones prescribe the same bytes. And
      unless the frames run out or the page-table code fails, it faults exactly if some byte of a segment is on a page that
      was neither mapped before nor asked for in time. */
  method Load(k: Kernel, src: nat, len: nat, ghost img: seq<Byte>) returns (r: LoadResult)
    requires k.Valid() && src < U64 && |img| == len && Readable(k.S(), src, img)
    modifies k, k.allocator
    ensures k.Valid() && Keeps(old(k.S()), k.S()) && !r.Overflow? && !r.Wild? && k.mapErrors >= old(k.mapErrors)
    ensures r.NotElf? <==> len < 64 || img[..4] != [0x7F, 'E' as int, 'L' as int, 'F' as int]
    ensures r.NotElf? ==> k.S() == old(k.S())
    ensures Safe(img, src) ==> UserFrame(old(k.S()), k.S(), img, Phnum(img, 0)) && Readable(k.S(), src, img)
    ensures Safe(img, src) && NoLoadHeaders(img, PHDR_SIZE) ==>
      r.Loaded? && k.S() == old(k.S()) && k.allocator.handed == old(k.allocator.handed)
    ensures UserLoadable(old(k.S()), src, img) ==>
      && (r.Loaded? ==>
            && r.entry == EntryPoint(img, 0) && k.S().Sound() && Laid(k.S(), img, Phnum(img, 0))
            && (ImageAt(k.S(), img, PHDR_SIZE, 0, Phnum(img, 0)) <==> Agree(img, img)))
      && (r.NoFrames? ==> k.allocator.handed == |k.S().all|)
      && (!r.NoFrames? && k.mapErrors == old(k.mapErrors) ==> (r.Fault? <==> Starved(old(k.S()), img, Phnum(img, 0))))
  {
    hide OneRole, AllFrames, NoOverflow, CursorAt, Keeps, Readable, Starved, ImageAt, Laid, Agree, Safe, LoadState, EndState,
         WellFormed, Header, HasMagic, EntryPoint, Phoff, Phnum, UserFrame, UserLoadable;
    ghost var s := k.S();
    KeepsReflexive(s, k.allocator.handed, k.roles);
    LoadStateStart(s, src, img);
    LoadStateEnds(s, s, src, img, 0, true);
    EndFacts(s, s, src, img);
    if len < EHDR_SIZE {
      NotLoadable(s, src, img);
      return NotElf;
    }
    ghost var none := Safe(img, src) && NoLoadHeaders(img, PHDR_SIZE);
    var ehdr := ReadEhdr(k, src, img);
    MagicIff(img, 0);
    if !HasMagic(ehdr, 0) {
      NotLoadable(s, src, img);
      return NotElf;
    }
    var phoff, phnum := Phoff(ehdr, 0), Phnum(ehdr, 0);
    for i := 0 to phnum
      invariant k.Valid() && k.mapErrors >= old(k.mapErrors)
      invariant LoadState(s, k.S(), src, img, i, k.mapErrors == old(k.mapErrors)) && EndState(s, k.S(), src, img)
      invariant none ==> k.S() == s && k.allocator.handed == old(k.allocator.handed)
    {
      var o := LoadHeader(k, src, phoff, i, img, s, old(k.mapErrors));
      EndFacts(s, k.S(), src, img);
      if o.OutOfMemory? { return NoFrames; }
      if o.Panicked? { return Fault; }
    }
    EndFacts(s, k.S(), src, img);
    LoadedFacts(s, k.S(), src, img, k.mapErrors == old(k.mapErrors));
    if UserLoadable(s, src, img) { LaidIff(k.S(), img); }
    return Loaded(EntryPoint(ehdr, 0));
  }

  lemma EndFacts(s: Space, t: Space, src: nat, img: seq<Byte>)
    requires EndState(s, t, src, img)
    ensures Keeps(s, t) && t.Sound()
    ensures Safe(img, src) ==> WellFormed(img, PHDR_SIZE) && UserFrame(s, t, img, Phnum(img, 0)) && Readable(t, src, img)
    ensures UserLoadable(s, src, img) ==> WellFormed(img, PHDR_SIZE)
  {
    hide Keeps, Readable, UserFrame, Phnum, WellFormed, OffSource, PlainTarget, Header;
  }

  lemma LoadedFacts(s: Space, t: Space, src: nat, img: seq<Byte>, clean: bool)
    requires EHDR_SIZE <= |img| && LoadState(s, t, src, img, Phnum(img, 0), clean)
    ensures UserLoadable(s, src, img) ==>
      t.Sound() && WellFormed(img, PHDR_SIZE) && Laid(t, img, Phnum(img, 0)) && !Starved(s, img, Phnum(img, 0))
  {
    hide Keeps, Readable, UserFrame, Phnum, WellFormed, OffSource, PlainTarget, Header, Laid, Starved;
  }

  lemma NotLoadable(s: Space, src: nat, img: seq<Byte>)
    requires |img| < EHDR_SIZE || !HasMagic(img, 0)
    ensures !WellFormed(img, PHDR_SIZE) && !Safe(img, src) && !UserLoadable(s, src, img)
  {
  }

  lemma LoadableIsSafe(s: Space, src: nat, img: seq<Byte>)
    requires UserLoadable(s, src, img)
    ensures WellFormed(img, PHDR_SIZE) && OffSource(img, src)
  {
  }

  lemma PlainHeader(s: Space, src: nat, img: seq<Byte>, i: nat)
    requires UserLoadable(s, src, img) && i < Phnum(img, 0) && Header(img, PHDR_SIZE, i).loadable
    ensures PlainTarget(s, Header(img, PHDR_SIZE, i))
  {
    hide Header, OffSource, Readable, WellFormed, PlainTarget;
  }

  lemma SegmentInFile(img: seq<Byte>, i: nat)
    requires WellFormed(img, PHDR_SIZE) && i < Phnum(img, 0) && Header(img, PHDR_SIZE, i).loadable
    ensures var ph := Header(img, PHDR_SIZE, i);
            SegmentFits(img, ph) && ph.filesz <= ph.memsz && ph.vaddr + ph.memsz + (PAGE_SIZE - 1) < U64
  {
  }

  /** What a segment leaves of a safe load. */
  lemma SafeStep(s: Space, t: Space, t2: Space, src: nat, img: seq<Byte>, n: nat)
    requires WellFormed(img, PHDR_SIZE) && OffSource(img, src) && n < Phnum(img, 0) && Header(img, PHDR_SIZE, n).loadable
    requires UserFrame(s, t, img, n) && Readable(t, src, img) && SegmentFrame(t, t2, Header(img, PHDR_SIZE, n))
    ensures UserFrame(s, t2, img, n + 1) && UserFrame(s, t2, img, Phnum(img, 0)) && Readable(t2, src, img)
  {
    var phnum := Phnum(img, 0);
    hide *;
    UserFrameStep(s, t, t2, img, n);
    UserFrameMore(s, t2, img, n + 1, phnum);
    StillReadable(t, t2, src, img, n);
  }

  /** What a segment in place leaves of a good one. */
  lemma GoodStep(s: Space, t: Space, t2: Space, img: seq<Byte>, n: nat, clean: bool)
    requires WellFormed(img, PHDR_SIZE) && n < Phnum(img, 0) && Header(img, PHDR_SIZE, n).loadable
    requires t.Sound() && t2.Sound() && UserFrame(s, t2, img, n + 1) && SegmentFrame(t, t2, Header(img, PHDR_SIZE, n))
    requires Laid(t, img, n) && SegmentAt(t2, img, Header(img, PHDR_SIZE, n), 0) && !Starved(s, img, n)
    requires AllMapped(t2, Header(img, PHDR_SIZE, n))
    requires clean ==> AllServed(t, img, n) && Served(t2, Header(img, PHDR_SIZE, n))
    ensures Laid(t2, img, n + 1) && !Starved(s, img, n + 1) && (clean ==> AllServed(t2, img, n + 1))
  {
    SegmentFrameIsKeeps(t, t2, Header(img, PHDR_SIZE, n));
    hide *;
    LaidStep(t, t2, img, n);
    NotStarvedStep(s, t2, img, n);
    if clean { ServedStep(t, t2, img, n); }
  }

  lemma SegmentFrameIsKeeps(s: Space, t: Space, ph: Phdr)
    requires SegmentFrame(s, t, ph)
    ensures Keeps(s, t)
  {
  }

  lemma GoodSkip(s: Space, t: Space, img: seq<Byte>, n: nat, clean: bool)
    requires WellFormed(img, PHDR_SIZE) && n < Phnum(img, 0) && !Header(img, PHDR_SIZE, n).loadable && t.Sound()
    requires UserFrame(s, t, img, n + 1) && Laid(t, img, n) && !Starved(s, img, n)
    requires clean ==> AllServed(t, img, n)
    ensures Laid(t, img, n + 1) && !Starved(s, img, n + 1) && (clean ==> AllServed(t, img, n + 1))
  {
    hide *;
    LaidSkip(t, img, n);
    NotStarvedStep(s, t, img, n);
    if clean { ServedSkip(t, img, n); }
  }

  lemma FaultMeansStarved(s: Space, t: Space, img: seq<Byte>, n: nat)
    requires WellFormed(img, PHDR_SIZE) && n < Phnum(img, 0) && UserFrame(s, t, img, n) && AllServed(t, img, n)
    requires Header(img, PHDR_SIZE, n).loadable && Lacking(t, Header(img, PHDR_SIZE, n))
    ensures Starved(s, img, Phnum(img, 0))
  {
    var ph := Header(img, PHDR_SIZE, n);
    var u: nat :| InSegment(ph, u) && Page(u) !in t.table && !Asked(ph, Page(u));
    hide *;
    FaultIsMissing(s, t, img, n, u);
    MissingIsStarved(s, img, n, u);
  }

  lemma MissingIsStarved(s: Space, img: seq<Byte>, i: nat, u: nat)
    requires WellFormed(img, PHDR_SIZE) && i < Phnum(img, 0) && Missing(s, img, i, u)
    ensures Starved(s, img, Phnum(img, 0))
  {
    hide Missing, Phnum;
  }

  lemma ServedStep(t: Space, t2: Space, img: seq<Byte>, n: nat)
    requires WellFormed(img, PHDR_SIZE) && n < Phnum(img, 0) && AllServed(t, img, n) && Keeps(t, t2)
    requires Header(img, PHDR_SIZE, n).loadable && Served(t2, Header(img, PHDR_SIZE, n))
    ensures AllServed(t2, img, n + 1)
  {
    hide Header, Asked, AskedBy, Phnum;
    AskedByOneMore(img, n);
  }

  lemma ServedSkip(t: Space, img: seq<Byte>, n: nat)
    requires WellFormed(img, PHDR_SIZE) && n < Phnum(img, 0) && AllServed(t, img, n)
    requires !Header(img, PHDR_SIZE, n).loadable
    ensures AllServed(t, img, n + 1)
  {
    hide Header, Asked, AskedBy, Phnum;
    AskedByOneMore(img, n);
  }

  /** Reads the file header, which lies inside the slice. */
  method ReadEhdr(k: Kernel, src: nat, ghost img: seq<Byte>) returns (ehdr: seq<Byte>)
    requires k.Valid() && src < U64 && EHDR_SIZE <= |img| && Readable(k.S(), src, img)
    ensures |ehdr| == EHDR_SIZE
    ensures HasMagic(ehdr, 0) == HasMagic(img, 0) && EntryPoint(ehdr, 0) == EntryPoint(img, 0)
    ensures Phoff(ehdr, 0) == Phoff(img, 0) && Phnum(ehdr, 0) == Phnum(img, 0)
  {
    hide OneRole, AllFrames, NoOverflow, CursorAt, AddWrap, HasMagic, EntryPoint, Phoff, Phnum, Phentsize, Page;
    ghost var t := k.S();
    NoWrap(src, 0, 0);
    var ok, bytes := k.LoadBytes(src, EHDR_SIZE);
    if !ok {
      ghost var j: nat :| j < EHDR_SIZE && !t.Backed(Page(AddWrap(src, j)));
      ReadNeverFails(t, src, img, 0, j);
      assert false;
    }
    ReadSlice(t, src, img, 0, bytes);
    EhdrOfSlice(img, 0, bytes);
    return bytes;
  }

  /** The segment lies below the user limit and its offset in the page leaves room for it in the pages counted. */
  predicate Roomy(ph: Phdr) {
    && ph.vaddr + ph.memsz + (PAGE_SIZE - 1) < USER_LIMIT - PAGE_SIZE
    && (ph.memsz == 0 || Offset(ph.vaddr) + ph.memsz <= PagesFor(ph.memsz) * PAGE_SIZE)
  }

  /** A segment whose requests pass the range check and cover it misses nothing, wherever it is in the file. */
  lemma CoveredMissesNothing(s: Space, img: seq<Byte>, i: nat, u: nat)
    requires WellFormed(img, PHDR_SIZE) && i < Phnum(img, 0) && Roomy(Header(img, PHDR_SIZE, i))
    ensures !Missing(s, img, i, u)
  {
    hide Header, Phnum, Asked;
    var ph := Header(img, PHDR_SIZE, i);
    if ph.loadable && InSegment(ph, u) {
      PagesCoverIff(ph);
      assert Requested(ph, Page(u));
      var p: nat :| p < PagesFor(ph.memsz) && Page(u) == Page(RequestAddr(ph, p));
      RequestIsSafe(ph, p);
      AskedIs(ph, p, Page(u));
    }
  }

  lemma RequestIsSafe(ph: Phdr, p: nat)
    requires ph.vaddr + ph.memsz + (PAGE_SIZE - 1) < USER_LIMIT - PAGE_SIZE && p < PagesFor(ph.memsz)
    ensures IsSafeUserPtr(RequestAddr(ph, p), PAGE_SIZE)
  {
  }

  lemma AskedIs(ph: Phdr, p: nat, q: nat)
    requires p < PagesFor(ph.memsz) && AskedAt(ph, p, q)
    ensures Asked(ph, q)
  {
  }

  const STRADDLE := Phdr(true, 120, 0x40_0FFF, 2, 2)

  /** A file with one segment of two bytes, one on each side of a page boundary. */
  const STRADDLING: seq<Byte> := File(0x40_0FFF, [Loading(120, 0x40_0FFF, 2, 2)], [1, 2])

  lemma StraddlingFile()
    ensures WellFormed(STRADDLING, PHDR_SIZE) && Phnum(STRADDLING, 0) == 1 && Header(STRADDLING, PHDR_SIZE, 0) == STRADDLE
  {
    hide File, WellFormed, Header, Phnum, EntryPoint;
    FileReadBack(0x40_0FFF, [Loading(120, 0x40_0FFF, 2, 2)], [1, 2]);
    FileWellFormed(0x40_0FFF, [Loading(120, 0x40_0FFF, 2, 2)], [1, 2]);
  }

  /** Its two pages are counted as one: the load is stopped exactly if the second page was not mapped before. */
  lemma StraddlingStarves(s: Space)
    requires WellFormed(STRADDLING, PHDR_SIZE) && Phnum(STRADDLING, 0) == 1
    ensures Starved(s, STRADDLING, 1) <==> 0x401 !in s.table
  {
    StraddlingFile();
    hide STRADDLING, WellFormed, Header, Phnum;
    assert PagesFor(2) == 1 && RequestAddr(STRADDLE, 0) == 0x40_0FFF;
    assert AskedAt(STRADDLE, 0, 0x400);
    assert forall q :: AskedBy(STRADDLING, 1, q) <==> q == 0x400 by { OneHeaderAsks(); }
    assert Page(0x40_0FFF) == 0x400 && Page(0x40_1000) == 0x401;
    assert 0x401 !in s.table ==> Missing(s, STRADDLING, 0, 0x40_1000);
  }

  lemma OneHeaderAsks()
    requires WellFormed(STRADDLING, PHDR_SIZE) && Phnum(STRADDLING, 0) == 1
    ensures forall q :: AskedBy(STRADDLING, 1, q) <==> q == 0x400
  {
    StraddlingFile();
    hide STRADDLING, WellFormed, Header, Phnum;
    assert PagesFor(2) == 1 && RequestAddr(STRADDLE, 0) == 0x40_0FFF;
    assert AskedAt(STRADDLE, 0, 0x400);
    assert forall q :: Asked(STRADDLE, q) <==> q == 0x400;
  }
}
