/** The kernel's ELF loader, `load_and_get_entry`: for every loadable segment it maps fresh frames page by
    page, clears each page, and then copies the file's bytes over them. */
module KernelLoader {
  import opened Words
  import opened Frames
  import opened Memory
  import opened Kernel
  import opened Elf
  import opened ElfWriter

  datatype LoadResult = Loaded(entry: nat) | NotElf | Overflow | NoFrames | Fault | Wild

  /** How the loading of one segment ends; `Strayed` is a store that would go astray. */
  datatype SegmentResult = InPlace | OutOfFrames | Faulted | Strayed

  const HIGHER_HALF: nat := 0xFFFF_FFFF_8000_0000
  const RELOCATION: nat := 0xFFFF_FFFF_8020_0000 - 0x40_0000

  /** The relocation offset: images linked into the kernel's half are moved down to 0x400000. */
  function RelocationOf(entry: nat): (off: nat)
    ensures off < U64 && off % PAGE_SIZE == 0
  {
    if entry >= HIGHER_HALF then RELOCATION else 0
  }

  /** Where an address of an image with the entry point `entry` goes. */
  function UserAddress(entry: nat, v: nat): nat {
    if entry >= 0xFFFF_FFFF_8000_0000 then (v - 0xFFFF_FFFF_8020_0000 + 0x40_0000) % 0x1_0000_0000_0000_0000 else v
  }

  lemma EntryMoves(e: nat)
    requires e < U64
    ensures Relocate(e, RelocationOf(e)) == if e >= 0xFFFF_FFFF_8000_0000 then e - 0xFFFF_FFFF_8020_0000 + 0x40_0000 else e
    ensures Relocate(e, RelocationOf(e)) == UserAddress(e, e)
  {
  }

  lemma AddressMoves(e: nat, v: nat)
    requires v < U64
    ensures Relocate(v, RelocationOf(e)) == UserAddress(e, v)
  {
  }

  /** Byte `k` of the segment is read where its address goes. */
  ghost predicate InUserByte(s: Space, img: seq<Byte>, ph: Phdr, entry: nat, k: nat)
    requires s.Sound() && SegmentFits(img, ph) && k < ph.memsz
  {
    var u := UserAddress(entry, ph.vaddr + k);
    s.Backed(Page(u)) && s.At(u) == Expected(img, ph, k)
  }

  /** Every byte of every segment is. */
  ghost predicate InUserPlace(s: Space, img: seq<Byte>, stride: nat)
    requires s.Sound() && WellFormed(img, stride)
  {
    forall i: nat, k: nat :: i < Phnum(img, 0) && Header(img, stride, i).loadable && k < Header(img, stride, i).memsz ==>
      InUserByte(s, img, Header(img, stride, i), EntryPoint(img, 0), k)
  }

  lemma UserByteIff(s: Space, img: seq<Byte>, ph: Phdr, entry: nat, k: nat)
    requires s.Sound() && SegmentFits(img, ph) && k < ph.memsz
    ensures InUserByte(s, img, ph, entry, k) <==> ByteAt(s, img, ph, RelocationOf(entry), k)
  {
    hide Expected, Relocate, UserAddress, RelocationOf, Page;
    AddressMoves(entry, ph.vaddr + k);
  }

  lemma UserPlaceIff(s: Space, img: seq<Byte>, stride: nat)
    requires s.Sound() && WellFormed(img, stride)
    ensures InUserPlace(s, img, stride) <==> ImageAt(s, img, stride, RelocationOf(EntryPoint(img, 0)), Phnum(img, 0))
  {
    hide Header, HasMagic, Phnum, EntryPoint, ByteAt, InUserByte, RelocationOf, SegmentFits;
    var e := EntryPoint(img, 0);
    forall i: nat, k: nat | i < Phnum(img, 0) && Header(img, stride, i).loadable && k < Header(img, stride, i).memsz
      ensures InUserByte(s, img, Header(img, stride, i), e, k) <==> ByteAt(s, img, Header(img, stride, i), RelocationOf(e), k)
    {
      UserByteIff(s, img, Header(img, stride, i), e, k);
    }
    if ImageAt(s, img, stride, RelocationOf(e), Phnum(img, 0)) {
      forall i: nat, k: nat | i < Phnum(img, 0) && Header(img, stride, i).loadable && k < Header(img, stride, i).memsz
        ensures InUserByte(s, img, Header(img, stride, i), e, k)
      {
        assert SegmentAt(s, img, Header(img, stride, i), RelocationOf(e));
      }
    }
  }

  /** A segment of an image with a kernel-half entry point that is linked at 0xFFFFFFFF80200000 + x is read at
      0x400000 + x, in the user's range; a segment of any other image is read where it is linked. */
  lemma LinkedImage(s: Space, img: seq<Byte>, stride: nat, i: nat, k: nat)
    requires s.Sound() && WellFormed(img, stride) && InUserPlace(s, img, stride)
    requires i < Phnum(img, 0) && Header(img, stride, i).loadable && k < Header(img, stride, i).memsz
    ensures var ph := Header(img, stride, i);
            var e, v := EntryPoint(img, 0), ph.vaddr + k;
            && (e >= 0xFFFF_FFFF_8000_0000 && ph.vaddr >= 0xFFFF_FFFF_8020_0000 ==>
                  var u := 0x40_0000 + (v - 0xFFFF_FFFF_8020_0000);
                  s.Backed(Page(u)) && s.At(u) == Expected(img, ph, k) && IsSafeUserPtr(u, 1))
            && (e < 0xFFFF_FFFF_8000_0000 ==> s.Backed(Page(v)) && s.At(v) == Expected(img, ph, k))
  {
    hide Header, HasMagic, Phnum, EntryPoint, Expected, IsSafeUserPtr;
    var ph := Header(img, stride, i);
    assert InUserByte(s, img, ph, EntryPoint(img, 0), k);
    if EntryPoint(img, 0) >= 0xFFFF_FFFF_8000_0000 && ph.vaddr >= 0xFFFF_FFFF_8020_0000 {
      SafeUserPtrIff(0x40_0000 + (ph.vaddr + k - 0xFFFF_FFFF_8020_0000), 1);
    }
  }

  /** A user page has the frame of `p`. */
  ghost predicate HasHome(s: Space, p: nat) {
    exists q :: s.Backed(q) && SameFrame(s, p, q)
  }

  /** The page is ordinary memory, or leads to the memory of a user page. */
  ghost predicate Good(s: Space, p: nat) {
    s.Backed(p) || (s.Seen(p) && HasHome(s, p))
  }

  /** Whatever is mapped among the segment's pages is ordinary memory or leads to the memory of a user page, and no two of
      them lead to the same frame. */
  ghost predicate Tame(s: Space, ph: Phdr, off: nat) {
    && (forall p :: InPages(ph, off, p) && p in s.table ==> Good(s, p))
    && (forall p, q :: InPages(ph, off, p) && InPages(ph, off, q) && SameFrame(s, p, q) ==> p == q)
  }

  /** The segment is written to page `p`: it is one of its pages, or the bootloader maps one of them to the frame of
      `p`. */
  ghost predicate Hit(s: Space, ph: Phdr, off: nat, p: nat) {
    InPages(ph, off, p) || exists h :: InPages(ph, off, h) && h in s.boot && SameFrame(s, h, p)
  }

  /** From `s` to `t`, the pages of the segment that come before page `upto` were mapped and cleared. */
  ghost predicate Cleared(s: Space, t: Space, ph: Phdr, off: nat, upto: nat) {
    && Untouched(s, t, ph, off)
    && (forall p :: p in t.table ==> p in s.table || (t.Backed(p) && InPages(ph, off, p) && SourcePage(p, off) < upto))
    && (forall p :: InPages(ph, off, p) && SourcePage(p, off) < upto ==> p in t.table)
    && (Tame(s, ph, off) ==>
          forall u: nat :: u < U64 && InPages(ph, off, Page(u)) && SourcePage(Page(u), off) < upto ==>
            t.Seen(Page(u)) && t.At(u) == 0)
  }

  /** No byte changed on a page that the segment is not written to. */
  ghost predicate Untouched(s: Space, t: Space, ph: Phdr, off: nat) {
    && Keeps(s, t)
    && (forall u: nat :: s.Backed(Page(u)) && !Hit(s, ph, off, Page(u)) ==>
          t.Backed(Page(u)) && t.At(u) == s.At(u))
  }

  lemma GoodLater(s: Space, t: Space, p: nat)
    requires Good(s, p) && Keeps(s, t)
    ensures Good(t, p) && t.Seen(p)
  {
    if !s.Backed(p) {
      var q :| s.Backed(q) && SameFrame(s, p, q);
      assert t.Backed(q) && SameFrame(t, p, q);
    }
  }

  /** The address with the offset of `u` in page `q`. */
  function Moved(u: nat, q: nat): nat { q * PAGE_SIZE + Offset(u) }

  lemma MovedFacts(s: Space, u: nat, q: nat)
    requires s.Sound() && s.Seen(Page(u)) && SameFrame(s, Page(u), q)
    ensures Page(Moved(u, q)) == q && Offset(Moved(u, q)) == Offset(u)
    ensures s.Seen(q) && s.At(Moved(u, q)) == s.At(u)
  {
  }

  /** The kernel's services keep the bytes of good pages. */
  lemma PreservedGood(s: Space, t: Space, u: nat)
    requires Preserves(s, t) && Good(s, Page(u))
    ensures t.Seen(Page(u)) && t.At(u) == s.At(u)
  {
    hide Page, Offset;
    if !s.Backed(Page(u)) {
      var q :| s.Backed(q) && SameFrame(s, Page(u), q);
      MovedFacts(s, u, q);
      PreservedByte(s, t, Moved(u, q));
      MovedFacts(t, u, q);
    }
  }

  /** The pages of a tame segment still lead to different frames when some of them were mapped to fresh ones. */
  lemma FramesApart(s: Space, t: Space, ph: Phdr, off: nat, p: nat, q: nat)
    requires Tame(s, ph, off) && Keeps(s, t) && InPages(ph, off, p) && InPages(ph, off, q) && SameFrame(t, p, q)
    requires (p !in s.table ==> t.Backed(p)) && (q !in s.table ==> t.Backed(q))
    ensures p == q
  {
    hide InPages;
    if p in s.table && q in s.table {
      assert SameFrame(s, p, q);
    } else if p in s.table {
      NewFrame(s, t, p, q);
    } else if q in s.table {
      NewFrame(s, t, q, p);
    }
  }

  lemma NewFrame(s: Space, t: Space, p: nat, q: nat)
    requires Keeps(s, t) && p in s.table && Good(s, p) && q !in s.table && t.Backed(q)
    ensures !SameFrame(t, p, q)
  {
    if s.Backed(p) {
      assert t.Backed(p) && p != q;
    } else {
      var h :| s.Backed(h) && SameFrame(s, p, h);
      assert t.Backed(h) && h != q && t.table[h] == t.table[p];
    }
  }

  /** A page of the segment leads to the frame of a user page only if the segment is written to that page. */
  lemma SharedMeansHit(s: Space, t: Space, ph: Phdr, off: nat, m: nat, p: nat)
    requires Keeps(s, t) && InPages(ph, off, m) && s.Backed(p) && SameFrame(t, m, p)
    ensures Hit(s, ph, off, p)
  {
    hide InPages;
    assert t.Backed(p);
    if m in t.boot {
      assert m in s.table;
      assert SameFrame(s, m, p);
    }
  }

  /** Stores within one page reach only addresses of pages with its frame. */
  lemma PageStoreElsewhere(s: Space, t: Space, m: nat, data: seq<Byte>, u: nat)
    requires m < U64 && m % PAGE_SIZE == 0 && |data| <= PAGE_SIZE && KernelStored(s, t, m, data)
    requires s.Seen(Page(u)) && !SameFrame(s, Page(m), Page(u))
    ensures t.Seen(Page(u)) && t.At(u) == s.At(u)
  {
    hide Reaches, Keeps, Page, AddWrap, SameFrame;
    KernelStoredSound(s, t, m, data);
    var a := s.Phys(u);
    LastHitFacts(s, m, |data|, a);
    var j := LastHit(s, m, |data|, a);
    if j >= 0 {
      SamePage(m, j);
      ReachesIff(s, AddWrap(m, j), u);
    }
  }

  lemma KernelStoredSound(s: Space, t: Space, v: nat, data: seq<Byte>)
    requires v < U64 && KernelStored(s, t, v, data)
    ensures Keeps(s, t) && s.Sound() && t.Sound() && |t.ram| == |s.ram|
    ensures t.table == s.table && t.all == s.all && t.boot == s.boot
  {
  }

  /** Clearing a page clears every byte that leads to its frame. */
  lemma PageStoreClears(s: Space, t: Space, m: nat, zeros: seq<Byte>, u: nat)
    requires m < U64 && m % PAGE_SIZE == 0 && zeros == seq(PAGE_SIZE, i => 0) && KernelStored(s, t, m, zeros)
    requires s.Seen(Page(u)) && SameFrame(s, Page(m), Page(u))
    ensures t.Seen(Page(u)) && t.At(u) == 0
  {
    hide Reaches, Keeps, Page, AddWrap, SameFrame;
    KernelStoredSound(s, t, m, zeros);
    var k := Offset(u);
    SamePage(m, k);
    ReachesIff(s, AddWrap(m, k), u);
    LastHitFacts(s, m, |zeros|, s.Phys(u));
  }

  /** Mapping and clearing one more page. */
  lemma ClearedStep(s: Space, t: Space, t1: Space, t2: Space, ph: Phdr, off: nat, m: nat, zeros: seq<Byte>)
    requires off < U64 && m < U64 && m % PAGE_SIZE == 0 && InPages(ph, off, Page(m))
    requires Cleared(s, t, ph, off, SourcePage(Page(m), off))
    requires Preserves(t, t1) && (forall p :: p in t1.table ==> p in t.table || p == Page(m))
    requires Page(m) in t1.table && (Page(m) !in t.table ==> t1.Backed(Page(m)))
    requires zeros == seq(PAGE_SIZE, i => 0) && KernelStored(t1, t2, m, zeros)
    ensures Cleared(s, t2, ph, off, SourcePage(Page(m), off) + 1)
  {
    hide Preserves, KernelStored, InPages, SourcePage, Page, Keeps, Tame, Hit, Untouched, SameFrame;
    UntouchedIsKeeps(s, t, ph, off);
    PreservesIsKeeps(t, t1);
    KernelStoredSound(t1, t2, m, zeros);
    UntouchedByPage(s, t, t1, t2, ph, off, m, zeros);
    ClearedPages(s, t, t1, t2, ph, off, Page(m));
    if Tame(s, ph, off) {
      KeepsTransitive(s, t, t1);
      KeepsItself(s, t);
      forall u: nat | u < U64 && InPages(ph, off, Page(u)) && SourcePage(Page(u), off) < SourcePage(Page(m), off) + 1
        ensures t2.Seen(Page(u)) && t2.At(u) == 0
      {
        NewOrTame(s, t, t1, ph, off, Page(m), Page(m));
        if Page(u) == Page(m) {
          SameFrameItself(t1, Page(m));
          PageStoreClears(t1, t2, m, zeros, u);
        } else {
          InPagesOrder(ph, off, u, m);
          NewOrTame(s, t, t, ph, off, Page(m), Page(u));
          PreservedGood(t, t1, u);
          if SameFrame(t1, Page(m), Page(u)) {
            NewOrTame(s, t, t1, ph, off, Page(m), Page(u));
            FramesApart(s, t1, ph, off, Page(m), Page(u));
          }
          PageStoreElsewhere(t1, t2, m, zeros, u);
        }
      }
    }
  }

  lemma ClearedPages(s: Space, t: Space, t1: Space, t2: Space, ph: Phdr, off: nat, m: nat)
    requires off < U64 && InPages(ph, off, m) && Cleared(s, t, ph, off, SourcePage(m, off))
    requires Keeps(t, t1) && (forall p :: p in t1.table ==> p in t.table || p == m) && m in t1.table
    requires (m !in t.table ==> t1.Backed(m)) && t2.table == t1.table && t2.all == t1.all && t2.boot == t1.boot
    ensures forall p :: p in t2.table ==>
              p in s.table || (t2.Backed(p) && InPages(ph, off, p) && SourcePage(p, off) < SourcePage(m, off) + 1)
    ensures forall p :: InPages(ph, off, p) && SourcePage(p, off) < SourcePage(m, off) + 1 ==> p in t2.table
  {
    hide InPages, SourcePage, Untouched, Tame;
    forall p | InPages(ph, off, p) && SourcePage(p, off) < SourcePage(m, off) + 1 ensures p in t2.table {
      if p != m { PagesOrder(ph, off, p, m); }
    }
  }

  lemma PagesOrder(ph: Phdr, off: nat, p: nat, m: nat)
    requires off < U64 && InPages(ph, off, p) && InPages(ph, off, m) && p != m
    requires SourcePage(p, off) < SourcePage(m, off) + 1
    ensures SourcePage(p, off) < SourcePage(m, off)
  {
    if SourcePage(p, off) == SourcePage(m, off) {
      SourcePageInjective(p, m, off);
    }
  }

  /** In the middle of clearing, a mapped page of a tame segment is good, and a new one is ordinary memory. */
  lemma NewOrTame(s: Space, t: Space, t1: Space, ph: Phdr, off: nat, m: nat, p: nat)
    requires Tame(s, ph, off) && Cleared(s, t, ph, off, SourcePage(m, off)) && Keeps(s, t1) && Keeps(t, t1)
    requires InPages(ph, off, p) && p in t1.table && (forall q :: q in t1.table ==> q in t.table || q == m)
    requires m !in t.table && m in t1.table ==> t1.Backed(m)
    ensures Good(t1, p) && t1.Seen(p) && (p !in s.table ==> t1.Backed(p))
  {
    hide InPages, SourcePage, Untouched, HasHome;
    if p in s.table {
      GoodLater(s, t1, p);
    } else if p in t.table {
      assert t.Backed(p);
    }
  }

  /** Stores into one page of the segment leave every page alone that the segment is not written to. */
  lemma UntouchedByPage(s: Space, t: Space, t1: Space, t2: Space, ph: Phdr, off: nat, m: nat, data: seq<Byte>)
    requires m < U64 && m % PAGE_SIZE == 0 && InPages(ph, off, Page(m)) && |data| <= PAGE_SIZE
    requires Untouched(s, t, ph, off) && Preserves(t, t1) && KernelStored(t1, t2, m, data)
    ensures Untouched(s, t2, ph, off)
  {
    hide Preserves, KernelStored, InPages, Page, Keeps, Hit, SameFrame;
    PreservesIsKeeps(t, t1);
    KernelStoredSound(t1, t2, m, data);
    KeepsTransitive(s, t, t1);
    KeepsTransitive(s, t1, t2);
    KeepsIsSound(s, t2);
    forall u: nat | s.Backed(Page(u)) && !Hit(s, ph, off, Page(u))
      ensures t2.Backed(Page(u)) && t2.At(u) == s.At(u)
    {
      PreservedByte(t, t1, u);
      if SameFrame(t1, Page(m), Page(u)) { SharedMeansHit(s, t1, ph, off, Page(m), Page(u)); }
      PageStoreElsewhere(t1, t2, m, data, u);
      StillBackedBy(t1, t2, Page(u));
    }
  }

  lemma StillBackedBy(s: Space, t: Space, p: nat)
    requires Keeps(s, t) && s.Backed(p)
    ensures t.Backed(p)
  {
  }

  lemma PreservesIsKeeps(s: Space, t: Space)
    requires Preserves(s, t)
    ensures Keeps(s, t)
  {
  }

  lemma PreservedByte(s: Space, t: Space, u: nat)
    requires Preserves(s, t) && s.Backed(Page(u))
    ensures t.Backed(Page(u)) && t.At(u) == s.At(u)
  {
  }

  lemma StoredIsKeeps(s: Space, t: Space, v: nat, data: seq<Byte>)
    requires v < U64 && Stored(s, t, v, data)
    ensures Keeps(s, t) && t.table == s.table && |t.ram| == |s.ram|
  {
  }

  lemma InPagesOrder(ph: Phdr, off: nat, u: nat, m: nat)
    requires off < U64 && InPages(ph, off, Page(u)) && InPages(ph, off, Page(m)) && Page(u) != Page(m)
    requires SourcePage(Page(u), off) < SourcePage(Page(m), off) + 1
    ensures SourcePage(Page(u), off) < SourcePage(Page(m), off)
  {
    if SourcePage(Page(u), off) == SourcePage(Page(m), off) {
      SourcePageInjective(Page(u), Page(m), off);
    }
  }

  lemma SegmentBounds(ph: Phdr)
    requires ph.vaddr + ph.memsz + (PAGE_SIZE - 1) < U64
    ensures And(ph.vaddr, Not64(PAGE_SIZE - 1)) == FirstPage(ph) * PAGE_SIZE
    ensures And(ph.vaddr + ph.memsz + (PAGE_SIZE - 1), Not64(PAGE_SIZE - 1)) == EndPage(ph) * PAGE_SIZE < U64
  {
    hide And, RoundUp;
    Pow2Of64();
    MaskRoundsDown(ph.vaddr, 12);
    MaskRoundsUp(ph.vaddr + ph.memsz, 12);
  }

  lemma ClearedNone(s: Space, n: nat, roles: map<nat, Role>, ph: Phdr, off: nat)
    requires OneRole(s, n, roles)
    ensures Cleared(s, s, ph, off, FirstPage(ph))
  {
  }

  lemma ClearedAll(s: Space, t: Space, ph: Phdr, off: nat, upto: nat)
    requires Cleared(s, t, ph, off, upto) && upto >= EndPage(ph)
    ensures Cleared(s, t, ph, off, EndPage(ph))
  {
  }

  /** Every page of the segment has a canonical address. */
  ghost predicate GoodTarget(ph: Phdr, off: nat) {
    forall p: nat :: InPages(ph, off, p) ==> Canonical(p * PAGE_SIZE)
  }

  /** One of the segment's pages is the bootloader's, and leads to no memory of a user page. */
  ghost predicate Homeless(s: Space, ph: Phdr, off: nat) {
    exists h :: InPages(ph, off, h) && h in s.boot && !HasHome(s, h)
  }

  /** A page that leads astray has no home: the frame of a home has the role to back it. */
  lemma AstrayIsHomeless(s: Space, t: Space, n: nat, roles: map<nat, Role>, ph: Phdr, off: nat, h: nat)
    requires Keeps(s, t) && OneRole(t, n, roles) && InPages(ph, off, h) && LeadsAstray(t, roles, h)
    ensures Homeless(s, ph, off)
  {
    hide InPages;
    forall q | s.Backed(q) ensures !SameFrame(s, h, q) {
      assert t.Backed(q);
      BackingFrame(t, n, roles, q);
    }
  }

  lemma SamePage(m: nat, k: nat)
    requires m < U64 && m % PAGE_SIZE == 0 && k < PAGE_SIZE
    ensures Page(AddWrap(m, k)) == Page(m) && Page(m) * PAGE_SIZE == m && Offset(AddWrap(m, k)) == k
  {
  }

  lemma NextPage(ph: Phdr, off: nat, orig: nat)
    requires off < U64 && off % PAGE_SIZE == 0 && orig % PAGE_SIZE == 0
    requires FirstPage(ph) <= Page(orig) && orig < EndPage(ph) * PAGE_SIZE && EndPage(ph) * PAGE_SIZE < U64
    ensures var m := Relocate(orig, off);
            && m % PAGE_SIZE == 0 && Page(m) * PAGE_SIZE == m && InPages(ph, off, Page(m))
            && SourcePage(Page(m), off) == Page(orig) && AddWrap(m, 0) == m
  {
    RelocatePage(orig, off);
  }

  /** One turn of the page loop: map the page and clear it. */
  method MapAndClear(k: Kernel, ph: Phdr, off: nat, origVaddr: nat, ghost s: Space) returns (r: SegmentResult)
    requires k.Valid() && off < U64 && off % PAGE_SIZE == 0 && origVaddr % PAGE_SIZE == 0
    requires FirstPage(ph) <= Page(origVaddr) && origVaddr < EndPage(ph) * PAGE_SIZE && EndPage(ph) * PAGE_SIZE < U64
    requires Cleared(s, k.S(), ph, off, Page(origVaddr))
    modifies k, k.allocator
    ensures k.Valid() && Untouched(s, k.S(), ph, off) && Grown(s, k.S(), ph, off)
    ensures r.InPlace? ==> Cleared(s, k.S(), ph, off, Page(origVaddr) + 1)
    ensures k.mapErrors >= old(k.mapErrors)
    ensures r.OutOfFrames? ==> k.allocator.handed == |k.S().all|
    ensures r.Faulted? && GoodTarget(ph, off) ==> k.mapErrors > old(k.mapErrors)
    ensures r.Strayed? ==> Homeless(s, ph, off)
  {
    hide OneRole, AllFrames, NoOverflow, CursorAt, Preserves, KernelStored, Cleared, InPages, AddWrap, EndPage, Relocate,
         Untouched, Grown, Keeps, Homeless, LeadsAstray;
    ghost var t := k.S();
    var mappedVaddr := Relocate(origVaddr, off);
    NextPage(ph, off, origVaddr);
    ClearedIsGrown(s, t, ph, off, Page(origVaddr));
    var o := k.MapFreshFrame(mappedVaddr);
    ghost var t1 := k.S();
    PreservesIsKeeps(t, t1);
    GrownByPage(s, t, t1, ph, off, Page(mappedVaddr));
    if !o.Done? {
      KernelStoredNone(t1, k.allocator.handed, k.roles, mappedVaddr);
      UntouchedByPage(s, t, t1, t1, ph, off, mappedVaddr, []);
      return if o.OutOfMemory? then OutOfFrames else Faulted;
    }
    var zeros := seq(PAGE_SIZE, i => 0);
    var ended;
    ghost var n;
    ended, n := k.KernelStoreBytes(mappedVaddr, zeros);
    KernelStoredSound(t1, k.S(), mappedVaddr, zeros[..n]);
    UntouchedByPage(s, t, t1, k.S(), ph, off, mappedVaddr, zeros[..n]);
    SameTableGrown(s, t1, k.S(), ph, off);
    if !ended.Complete? {
      SamePage(mappedVaddr, n);
      if ended.Astray? {
        UntouchedIsKeeps(s, k.S(), ph, off);
        AstrayIsHomeless(s, k.S(), k.allocator.handed, k.roles, ph, off, Page(mappedVaddr));
      }
      return if ended.Astray? then Strayed else Faulted;
    }
    assert zeros[..n] == zeros;
    assert Page(AddWrap(mappedVaddr, 0)) in k.table;
    ClearedStep(s, t, t1, k.S(), ph, off, mappedVaddr, zeros);
    return InPlace;
  }

  /** The page loop of one segment. */
  method MapSegment(k: Kernel, ph: Phdr, off: nat) returns (r: SegmentResult)
    requires k.Valid() && ph.vaddr + ph.memsz + (PAGE_SIZE - 1) < U64 && off < U64 && off % PAGE_SIZE == 0
    modifies k, k.allocator
    ensures k.Valid()
    ensures r.InPlace? ==> Cleared(old(k.S()), k.S(), ph, off, EndPage(ph))
    ensures Untouched(old(k.S()), k.S(), ph, off) && Grown(old(k.S()), k.S(), ph, off)
    ensures k.mapErrors >= old(k.mapErrors)
    ensures r.OutOfFrames? ==> k.allocator.handed == |k.S().all|
    ensures r.Faulted? && GoodTarget(ph, off) ==> k.mapErrors > old(k.mapErrors)
    ensures r.Strayed? ==> Homeless(old(k.S()), ph, off)
  {
    hide OneRole, AllFrames, NoOverflow, CursorAt, Cleared, And, InPages, EndPage, Untouched, Grown, Keeps, Homeless,
         GoodTarget;
    ghost var s := k.S();
    SegmentBounds(ph);
    var origVaddr := And(ph.vaddr, Not64(PAGE_SIZE - 1));
    var endVaddr := And(ph.vaddr + ph.memsz + (PAGE_SIZE - 1), Not64(PAGE_SIZE - 1));
    ClearedNone(s, k.allocator.handed, k.roles, ph, off);
    while origVaddr < endVaddr
      invariant origVaddr % PAGE_SIZE == 0 && FirstPage(ph) <= Page(origVaddr)
      invariant k.Valid() && Cleared(s, k.S(), ph, off, Page(origVaddr))
      invariant k.mapErrors >= old(k.mapErrors)
    {
      r := MapAndClear(k, ph, off, origVaddr, s);
      if !r.InPlace? {
        return;
      }
      origVaddr := origVaddr + PAGE_SIZE;
    }
    ClearedAll(s, k.S(), ph, off, Page(origVaddr));
    ClearedIsGrown(s, k.S(), ph, off, EndPage(ph));
    return InPlace;
  }

  /** The bytes of a relocated segment are consecutive, and lie in its pages. */
  lemma SegmentByte(ph: Phdr, off: nat, j: nat)
    requires j < ph.memsz && ph.vaddr + ph.memsz + (PAGE_SIZE - 1) < U64 && off < U64 && off % PAGE_SIZE == 0
    ensures var u := Relocate(ph.vaddr + j, off);
            Dist(Relocate(ph.vaddr, off), u) == j && InPages(ph, off, Page(u))
  {
    PageOfByte(ph, j);
    RelocatePage(ph.vaddr + j, off);
  }

  /** The page lies among the segment's own pages, before relocation. */
  predicate OnPages(ph: Phdr, q: nat) {
    FirstPage(ph) <= q < EndPage(ph)
  }

  /** What a segment puts at the address `v` of its pages: its file's byte, or zero before, after and between. */
  function Content(img: seq<Byte>, ph: Phdr, v: nat): Byte
    requires SegmentFits(img, ph)
  {
    if ph.vaddr <= v < ph.vaddr + ph.filesz then img[ph.offset + (v - ph.vaddr)] else 0
  }

  /** The relocated address of `v` holds what the segment puts there. */
  ghost predicate HeldAt(s: Space, img: seq<Byte>, ph: Phdr, off: nat, v: nat)
    requires s.Sound() && SegmentFits(img, ph) && off < U64 && v < U64
  {
    var u := Relocate(v, off);
    s.Seen(Page(u)) && s.At(u) == Content(img, ph, v)
  }

  /** Every byte of the segment's relocated pages is what the segment puts there. */
  ghost predicate PagesHold(s: Space, img: seq<Byte>, ph: Phdr, off: nat)
    requires s.Sound() && SegmentFits(img, ph) && off < U64
  {
    forall v: nat :: v < U64 && OnPages(ph, Page(v)) ==> HeldAt(s, img, ph, off, v)
  }

  lemma RelocatedOnPages(ph: Phdr, off: nat, v: nat)
    requires v < U64 && off < U64 && off % PAGE_SIZE == 0 && OnPages(ph, Page(v))
    ensures InPages(ph, off, Page(Relocate(v, off)))
  {
    RelocatePage(v, off);
  }

  lemma RelocatedDist(ph: Phdr, off: nat, v: nat)
    requires v < U64 && off < U64 && OnPages(ph, Page(v)) && ph.filesz <= ph.memsz
    requires ph.vaddr + ph.memsz + (PAGE_SIZE - 1) < U64
    ensures var d := Dist(Relocate(ph.vaddr, off), Relocate(v, off));
            if ph.vaddr <= v < ph.vaddr + ph.filesz then d == v - ph.vaddr else d >= ph.filesz
  {
    PageSplit(v);
    PageSplit(ph.vaddr);
  }

  /** The addresses of the copy are the relocated addresses of the segment's bytes. */
  lemma CopyAddress(ph: Phdr, off: nat, j: nat)
    requires j < ph.memsz && ph.vaddr + ph.memsz + (PAGE_SIZE - 1) < U64 && off < U64 && off % PAGE_SIZE == 0
    ensures AddWrap(Relocate(ph.vaddr, off), j) == Relocate(ph.vaddr + j, off)
    ensures InPages(ph, off, Page(AddWrap(Relocate(ph.vaddr, off), j)))
  {
    hide InPages, Page, RoundUp, Relocate;
    SegmentByte(ph, off, j);
    DistAddWrap(Relocate(ph.vaddr, off), j);
  }

  /** What the copy leaves at a byte of a tame segment's pages. */
  lemma CopiedByte(s: Space, t: Space, t2: Space, img: seq<Byte>, ph: Phdr, off: nat, data: seq<Byte>, v: nat)
    requires off < U64 && off % PAGE_SIZE == 0 && SegmentFits(img, ph) && v < U64 && OnPages(ph, Page(v))
    requires Tame(s, ph, off) && Cleared(s, t, ph, off, EndPage(ph))
    requires data == img[ph.offset..ph.offset + ph.filesz] && KernelStored(t, t2, Relocate(ph.vaddr, off), data)
    requires t2.Sound()
    ensures HeldAt(t2, img, ph, off, v)
  {
    hide InPages, OnPages, Page, RoundUp, Relocate, Tame, Dist, Keeps, Reaches, AddWrap, Hit, Untouched, SameFrame, EndPage;
    var dst, u := Relocate(ph.vaddr, off), Relocate(v, off);
    KernelStoredSound(t, t2, dst, data);
    RelocatedOnPages(ph, off, v);
    InPagesEnd(ph, off, Page(u));
    assert t.Seen(Page(u)) && t.At(u) == 0;
    RelocatedDist(ph, off, v);
    LastHitFacts(t, dst, |data|, t.Phys(u));
    var j := LastHit(t, dst, |data|, t.Phys(u));
    if j >= 0 { OnlyItself(s, t, ph, off, j, u); }
    if ph.vaddr <= v < ph.vaddr + ph.filesz {
      CopyAddress(ph, off, v - ph.vaddr);
      ReachesIff(t, u, u);
      SameFrameItself(t, Page(u));
    }
  }

  lemma SameFrameItself(t: Space, p: nat)
    requires t.Seen(p)
    ensures SameFrame(t, p, p)
  {
  }

  /** The pages of a tame segment lead to different frames, so a byte of it is reached through its own address only. */
  lemma OnlyItself(s: Space, t: Space, ph: Phdr, off: nat, j: nat, u: nat)
    requires j < ph.memsz && ph.vaddr + ph.memsz + (PAGE_SIZE - 1) < U64 && off < U64 && off % PAGE_SIZE == 0 && u < U64
    requires Tame(s, ph, off) && Cleared(s, t, ph, off, EndPage(ph)) && InPages(ph, off, Page(u)) && t.Seen(Page(u))
    requires t.Sound() && Reaches(t, AddWrap(Relocate(ph.vaddr, off), j), t.Phys(u))
    ensures Dist(Relocate(ph.vaddr, off), u) == j
  {
    hide InPages, Page, RoundUp, Relocate, Tame, Dist, Keeps, Reaches, AddWrap, Hit, SameFrame, EndPage;
    var dst := Relocate(ph.vaddr, off);
    var w := AddWrap(dst, j);
    CopyAddress(ph, off, j);
    ReachesIff(t, w, u);
    SameFramePages(t, Page(w), Page(u));
    FramesApart(s, t, ph, off, Page(w), Page(u));
    SameAddress(w, u);
    DistAddWrap(dst, j);
  }

  lemma SameFramePages(t: Space, p: nat, q: nat)
    requires SameFrame(t, p, q)
    ensures p in t.table && q in t.table
  {
  }

  /** Copying the file's bytes over the cleared pages completes the segment and is written to no other page. */
  lemma CopyCompletes(s: Space, t: Space, t2: Space, img: seq<Byte>, ph: Phdr, off: nat, data: seq<Byte>)
    requires off < U64 && off % PAGE_SIZE == 0 && SegmentFits(img, ph)
    requires Tame(s, ph, off) && Cleared(s, t, ph, off, EndPage(ph))
    requires data == img[ph.offset..ph.offset + ph.filesz] && KernelStored(t, t2, Relocate(ph.vaddr, off), data)
    requires t2.Sound()
    ensures PagesHold(t2, img, ph, off)
  {
    hide InPages, OnPages, Page, RoundUp, Relocate, Tame, Keeps, KernelStored, Cleared, HeldAt, SegmentFits;
    forall v: nat | v < U64 && OnPages(ph, Page(v))
      ensures HeldAt(t2, img, ph, off, v)
    {
      CopiedByte(s, t, t2, img, ph, off, data, v);
    }
  }

  lemma InPagesEnd(ph: Phdr, off: nat, p: nat)
    requires InPages(ph, off, p)
    ensures SourcePage(p, off) < EndPage(ph)
  {
  }

  lemma KeepsItself(s: Space, t: Space)
    requires Keeps(s, t)
    ensures Keeps(t, t)
  {
  }

  lemma KeepsIsSound(s: Space, t: Space)
    requires Keeps(s, t)
    ensures s.Sound() && t.Sound()
  {
  }

  /** The image lies at the physical address `base`, outside the allocator's frames and the page tables. */
  ghost predicate Placed(s: Space, base: nat, img: seq<Byte>) {
    && base + |img| <= |s.ram| && img == s.ram[base..base + |img|]
    && forall a :: base <= a < base + |img| ==> s.Foreign(a)
  }

  lemma StillPlaced(s: Space, t: Space, base: nat, img: seq<Byte>)
    requires Placed(s, base, img) && Keeps(s, t)
    ensures Placed(t, base, img)
  {
    forall a | base <= a < base + |img| ensures t.Foreign(a) && t.ram[a] == img[a - base] {
      assert s.Foreign(a) && s.ram[base..base + |img|][a - base] == s.ram[a];
    }
  }

  ghost predicate Grown(s: Space, t: Space, ph: Phdr, off: nat) {
    forall p :: p in t.table ==> p in s.table || (t.Backed(p) && InPages(ph, off, p))
  }

  lemma ClearedIsGrown(s: Space, t: Space, ph: Phdr, off: nat, upto: nat)
    requires Cleared(s, t, ph, off, upto)
    ensures Untouched(s, t, ph, off) && Keeps(s, t) && Grown(s, t, ph, off) && |t.ram| == |s.ram|
  {
  }

  /** The copy finds all its pages mapped. */
  lemma CopyPagesMapped(s: Space, t: Space, ph: Phdr, off: nat, j: nat)
    requires j < ph.memsz && ph.vaddr + ph.memsz + (PAGE_SIZE - 1) < U64 && off < U64 && off % PAGE_SIZE == 0
    requires Cleared(s, t, ph, off, EndPage(ph))
    ensures Page(AddWrap(Relocate(ph.vaddr, off), j)) in t.table
  {
    hide InPages, Page, Tame, Relocate, RoundUp, Keeps, AddWrap, EndPage;
    CopyAddress(ph, off, j);
    InPagesEnd(ph, off, Page(AddWrap(Relocate(ph.vaddr, off), j)));
  }

  /** A copy into the segment leaves every page alone that the segment is not written to, however far it got. */
  lemma UntouchedByCopy(s: Space, t: Space, t2: Space, ph: Phdr, off: nat, data: seq<Byte>)
    requires off < U64 && off % PAGE_SIZE == 0 && ph.vaddr + ph.memsz + (PAGE_SIZE - 1) < U64 && |data| <= ph.memsz
    requires Untouched(s, t, ph, off) && KernelStored(t, t2, Relocate(ph.vaddr, off), data)
    ensures Untouched(s, t2, ph, off)
  {
    hide InPages, Page, RoundUp, Relocate, Keeps, KernelStored, Hit;
    var dst := Relocate(ph.vaddr, off);
    KernelStoredSound(t, t2, dst, data);
    KeepsTransitive(s, t, t2);
    KeepsIsSound(s, t2);
    forall u: nat | s.Backed(Page(u)) && !Hit(s, ph, off, Page(u))
      ensures t2.Backed(Page(u)) && t2.At(u) == s.At(u)
    {
      CopyElsewhere(s, t, t2, ph, off, data, u);
      StillBackedBy(t, t2, Page(u));
    }
  }

  lemma CopyElsewhere(s: Space, t: Space, t2: Space, ph: Phdr, off: nat, data: seq<Byte>, u: nat)
    requires off < U64 && off % PAGE_SIZE == 0 && ph.vaddr + ph.memsz + (PAGE_SIZE - 1) < U64 && |data| <= ph.memsz
    requires Keeps(s, t) && t.Sound() && t2.Sound() && KernelStored(t, t2, Relocate(ph.vaddr, off), data)
    requires s.Backed(Page(u)) && t.Backed(Page(u)) && !Hit(s, ph, off, Page(u))
    ensures t2.Seen(Page(u)) && t2.At(u) == t.At(u)
  {
    hide InPages, Page, RoundUp, Relocate, Keeps, Hit, Reaches, AddWrap, SameFrame;
    var dst := Relocate(ph.vaddr, off);
    LastHitFacts(t, dst, |data|, t.Phys(u));
    var j := LastHit(t, dst, |data|, t.Phys(u));
    if j >= 0 {
      CopyAddress(ph, off, j);
      ReachesIff(t, AddWrap(dst, j), u);
      SharedMeansHit(s, t, ph, off, Page(AddWrap(dst, j)), Page(u));
    }
  }

  lemma UntouchedIsKeeps(s: Space, t: Space, ph: Phdr, off: nat)
    requires Untouched(s, t, ph, off)
    ensures Keeps(s, t) && |t.ram| == |s.ram|
  {
  }

  /** One loadable segment: map and clear its pages, then copy its file bytes. */
  method LoadSegment(k: Kernel, base: nat, ph: Phdr, off: nat, ghost img: seq<Byte>) returns (r: SegmentResult)
    requires k.Valid() && ph.vaddr + ph.memsz + (PAGE_SIZE - 1) < U64 && off < U64 && off % PAGE_SIZE == 0
    requires ph.filesz < U64
    modifies k, k.allocator
    ensures k.Valid() && Keeps(old(k.S()), k.S()) && Grown(old(k.S()), k.S(), ph, off)
    ensures ph.filesz <= ph.memsz ==> Untouched(old(k.S()), k.S(), ph, off)
    ensures r.InPlace? && Placed(old(k.S()), base, img) && SegmentFits(img, ph) && Tame(old(k.S()), ph, off) ==>
      PagesHold(k.S(), img, ph, off)
    ensures k.mapErrors >= old(k.mapErrors)
    ensures r.OutOfFrames? ==> k.allocator.handed == |k.S().all|
    ensures r.Faulted? && Placed(old(k.S()), base, img) && SegmentFits(img, ph) && GoodTarget(ph, off) ==>
      k.mapErrors > old(k.mapErrors)
    ensures r.Strayed? && ph.filesz <= ph.memsz ==> Homeless(old(k.S()), ph, off)
  {
    hide OneRole, AllFrames, NoOverflow, CursorAt, KernelStored, Cleared, Tame, GoodTarget, PagesHold, Keeps, Untouched,
         Grown,
         Placed, Relocate, EndPage, Homeless, LeadsAstray, AddWrap;
    ghost var s := k.S();
    r := MapSegment(k, ph, off);
    ghost var t := k.S();
    UntouchedIsKeeps(s, t, ph, off);
    if !r.InPlace? {
      return;
    }
    ghost var good := Placed(s, base, img) && SegmentFits(img, ph);
    if good {
      StillPlaced(s, t, base, img);
      SourceBytes(t, base, img, ph);
    }
    if ph.filesz > 0 {
      if base + ph.offset + ph.filesz > |k.ram| {
        return Faulted;
      }
      var data := k.ram[base + ph.offset..base + ph.offset + ph.filesz];
      var dst := Relocate(ph.vaddr, off);
      var ended;
      ghost var n;
      ended, n := k.KernelStoreBytes(dst, data);
      KernelStoredSound(t, k.S(), dst, data[..n]);
      KeepsTransitive(s, t, k.S());
      SameTableGrown(s, t, k.S(), ph, off);
      if ph.filesz <= ph.memsz {
        UntouchedByCopy(s, t, k.S(), ph, off, data[..n]);
        if n < |data| {
          CopyPagesMapped(s, t, ph, off, n);
          CopyAddress(ph, off, n);
        }
        if ended.Astray? {
          AstrayIsHomeless(s, k.S(), k.allocator.handed, k.roles, ph, off, Page(AddWrap(dst, n)));
        }
      }
      if !ended.Complete? {
        return if ended.Astray? then Strayed else Faulted;
      }
      assert data[..n] == data;
      if good && Tame(s, ph, off) { CopyCompletes(s, t, k.S(), img, ph, off, data); }
    } else if good && Tame(s, ph, off) {
      KernelStoredNone(t, k.allocator.handed, k.roles, Relocate(ph.vaddr, off));
      KernelStoredSound(t, t, Relocate(ph.vaddr, off), []);
      assert img[ph.offset..ph.offset + ph.filesz] == [];
      CopyCompletes(s, t, t, img, ph, off, []);
    }
  }

  lemma SourceBytes(s: Space, base: nat, img: seq<Byte>, ph: Phdr)
    requires Placed(s, base, img) && SegmentFits(img, ph)
    ensures base + ph.offset + ph.filesz <= |s.ram|
    ensures s.ram[base + ph.offset..base + ph.offset + ph.filesz] == img[ph.offset..ph.offset + ph.filesz]
  {
  }

  lemma GrownByPage(s: Space, t: Space, t1: Space, ph: Phdr, off: nat, p: nat)
    requires Grown(s, t, ph, off) && Keeps(t, t1) && InPages(ph, off, p)
    requires (forall q :: q in t1.table ==> q in t.table || q == p) && (p in t1.table && p !in t.table ==> t1.Backed(p))
    ensures Grown(s, t1, ph, off)
  {
  }

  lemma SameTableGrown(s: Space, t: Space, u: Space, ph: Phdr, off: nat)
    requires Grown(s, t, ph, off) && u.table == t.table && u.all == t.all && u.boot == t.boot
    ensures Grown(s, u, ph, off)
  {
  }

  /** The image lies in memory at `base`, outside the allocator's reach, and is well formed. */
  ghost predicate Sourced(s: Space, base: nat, img: seq<Byte>) {
    EHDR_SIZE <= |img| && Placed(s, base, img) && WellFormed(img, Phentsize(img, 0))
  }

  /** Page `p` belongs to a relocated segment. */
  ghost predicate InSegments(img: seq<Byte>, stride: nat, off: nat, p: nat)
    requires WellFormed(img, stride)
  {
    !Outside(img, stride, off, Phnum(img, 0), p)
  }

  /** What the loader expects of its input: a well-formed image, ordinary memory or the memory of a user page wherever one
      of its target pages is mapped already, and no two of these leading to one frame. */
  ghost predicate KernelLoadable(s: Space, base: nat, img: seq<Byte>) {
    && Sourced(s, base, img)
    && TameTargets(s, img, Phentsize(img, 0), RelocationOf(EntryPoint(img, 0)))
  }

  ghost predicate TameTargets(s: Space, img: seq<Byte>, stride: nat, off: nat)
    requires WellFormed(img, stride)
  {
    && (forall p :: InSegments(img, stride, off, p) && p in s.table ==> Good(s, p))
    && (forall p, q :: InSegments(img, stride, off, p) && InSegments(img, stride, off, q) && SameFrame(s, p, q) ==> p == q)
  }

  lemma SegmentInSegments(img: seq<Byte>, stride: nat, off: nat, i: nat, p: nat)
    requires WellFormed(img, stride) && i < Phnum(img, 0) && Header(img, stride, i).loadable
    requires InPages(Header(img, stride, i), off, p)
    ensures InSegments(img, stride, off, p)
  {
    hide Header, InPages, Phnum;
  }

  lemma TameSegment(s: Space, img: seq<Byte>, stride: nat, off: nat, i: nat)
    requires WellFormed(img, stride) && TameTargets(s, img, stride, off) && i < Phnum(img, 0)
    requires Header(img, stride, i).loadable
    ensures Tame(s, Header(img, stride, i), off)
  {
    hide Header, InPages, Phnum, InSegments, Good, SameFrame;
    var ph := Header(img, stride, i);
    forall p | InPages(ph, off, p) ensures InSegments(img, stride, off, p) {
      SegmentInSegments(img, stride, off, i, p);
    }
  }

  /** Pages that become mapped to fresh frames leave the targets tame. */
  lemma TameLater(s: Space, t: Space, img: seq<Byte>, stride: nat, off: nat, i: nat)
    requires WellFormed(img, stride) && TameTargets(s, img, stride, off) && Keeps(s, t) && i < Phnum(img, 0)
    requires Grown(s, t, Header(img, stride, i), off)
    ensures TameTargets(t, img, stride, off)
  {
    hide Header, InPages, Phnum, InSegments, HasHome, Keeps;
    KeepsIsSound(s, t);
    forall p | InSegments(img, stride, off, p) && p in t.table ensures Good(t, p) {
      if p in s.table { GoodLater(s, t, p); }
    }
    forall p, q | InSegments(img, stride, off, p) && InSegments(img, stride, off, q) && SameFrame(t, p, q) ensures p == q {
      if p in s.table && q in s.table {
        OldFrames(s, t, p, q);
      } else if p in s.table {
        NewFrame(s, t, p, q);
      } else if q in s.table {
        NewFrame(s, t, q, p);
      } else {
        BackedApart(t, p, q);
      }
    }
  }

  lemma OldFrames(s: Space, t: Space, p: nat, q: nat)
    requires Keeps(s, t) && p in s.table && q in s.table && SameFrame(t, p, q)
    ensures SameFrame(s, p, q)
  {
  }

  lemma BackedApart(t: Space, p: nat, q: nat)
    requires t.Backed(p) && t.Backed(q) && SameFrame(t, p, q)
    ensures t.Sound() ==> p == q
  {
  }

  ghost predicate GoodTargets(img: seq<Byte>, stride: nat, off: nat)
    requires WellFormed(img, stride)
  {
    forall i: nat :: i < Phnum(img, 0) && Header(img, stride, i).loadable ==> GoodTarget(Header(img, stride, i), off)
  }

  /** A page of a segment is the bootloader's, and leads to no memory of a user page. */
  ghost predicate SomeHomeless(s: Space, img: seq<Byte>, stride: nat, off: nat)
    requires WellFormed(img, stride)
  {
    exists i: nat :: i < Phnum(img, 0) && Header(img, stride, i).loadable && Homeless(s, Header(img, stride, i), off)
  }

  /** Header `i` has a loadable segment on page `q`. */
  ghost predicate SegmentOn(img: seq<Byte>, stride: nat, i: nat, q: nat)
    requires WellFormed(img, stride) && i < Phnum(img, 0)
  {
    Header(img, stride, i).loadable && OnPages(Header(img, stride, i), q)
  }

  /** The last of the first `n` headers that has a loadable segment on page `q`, or -1. */
  ghost function LastOn(img: seq<Byte>, stride: nat, n: nat, q: nat): (j: int)
    requires WellFormed(img, stride) && n <= Phnum(img, 0)
    ensures -1 <= j < n
  {
    if n == 0 then -1 else if SegmentOn(img, stride, n - 1, q) then n - 1 else LastOn(img, stride, n - 1, q)
  }

  lemma {:induction false} LastOnFacts(img: seq<Byte>, stride: nat, n: nat, q: nat)
    requires WellFormed(img, stride) && n <= Phnum(img, 0)
    ensures var j := LastOn(img, stride, n, q);
            && (j >= 0 ==> SegmentOn(img, stride, j, q))
            && forall i: nat :: j < i < n ==> !SegmentOn(img, stride, i, q)
  {
    hide WellFormed, Phnum, SegmentOn;
    if n > 0 && !SegmentOn(img, stride, n - 1, q) {
      LastOnFacts(img, stride, n - 1, q);
    }
  }

  /** The address `v`, relocated, holds what the last segment on its page puts there. */
  ghost predicate LastHeld(s: Space, img: seq<Byte>, stride: nat, off: nat, n: nat, v: nat)
    requires s.Sound() && WellFormed(img, stride) && n <= Phnum(img, 0) && off < U64 && v < U64
  {
    var j := LastOn(img, stride, n, Page(v));
    j >= 0 && Header(img, stride, j).loadable ==> HeldAt(s, img, Header(img, stride, j), off, v)
  }

  /** On every page of a segment the bytes are those of the last segment on that page. */
  ghost predicate ImageOn(s: Space, img: seq<Byte>, stride: nat, off: nat, n: nat)
    requires s.Sound() && WellFormed(img, stride) && n <= Phnum(img, 0) && off < U64
  {
    forall v: nat :: v < U64 ==> LastHeld(s, img, stride, off, n, v)
  }

  /** The page belongs to no relocated segment among the first `n`. */
  ghost predicate Outside(img: seq<Byte>, stride: nat, off: nat, n: nat, p: nat)
    requires WellFormed(img, stride) && n <= Phnum(img, 0)
  {
    forall i: nat :: i < n && Header(img, stride, i).loadable ==> !InPages(Header(img, stride, i), off, p)
  }

  /** None of the first `n` segments is written to page `p`. */
  ghost predicate Spared(s: Space, img: seq<Byte>, stride: nat, off: nat, n: nat, p: nat)
    requires WellFormed(img, stride) && n <= Phnum(img, 0)
  {
    forall i: nat :: i < n && Header(img, stride, i).loadable ==> !Hit(s, Header(img, stride, i), off, p)
  }

  /** Only pages of the first `n` segments were mapped, to memory, and no byte changed on a page they are not written
      to. */
  ghost predicate OnlySegments(s: Space, t: Space, img: seq<Byte>, stride: nat, off: nat, n: nat)
    requires WellFormed(img, stride) && n <= Phnum(img, 0)
  {
    && Keeps(s, t)
    && (forall p :: p in t.table && Outside(img, stride, off, n, p) ==> p in s.table)
    && (forall u: nat :: s.Backed(Page(u)) && Spared(s, img, stride, off, n, Page(u)) ==>
          t.Backed(Page(u)) && t.At(u) == s.At(u))
  }

  /** Mapped pages keep their frames, so later the same segments are written to a page. */
  lemma HitLater(s: Space, t: Space, ph: Phdr, off: nat, p: nat)
    requires Keeps(s, t) && p in s.table
    ensures Hit(t, ph, off, p) <==> Hit(s, ph, off, p)
  {
    hide InPages;
    if Hit(t, ph, off, p) && !InPages(ph, off, p) {
      var h :| InPages(ph, off, h) && h in t.boot && SameFrame(t, h, p);
      assert h in s.table && SameFrame(s, h, p);
    }
    if Hit(s, ph, off, p) && !InPages(ph, off, p) {
      var h :| InPages(ph, off, h) && h in s.boot && SameFrame(s, h, p);
      assert SameFrame(t, h, p);
    }
  }

  lemma OnlySegmentsNone(s: Space, img: seq<Byte>, stride: nat, off: nat)
    requires WellFormed(img, stride) && Keeps(s, s) && off < U64
    ensures OnlySegments(s, s, img, stride, off, 0) && ImageOn(s, img, stride, off, 0)
  {
  }

  lemma OnlySegmentsSkip(s: Space, t: Space, img: seq<Byte>, stride: nat, off: nat, n: nat)
    requires WellFormed(img, stride) && n < Phnum(img, 0) && OnlySegments(s, t, img, stride, off, n)
    ensures OnlySegments(s, t, img, stride, off, n + 1)
  {
    hide Header, InPages, Keeps, Page, Hit;
    assert forall p :: Outside(img, stride, off, n + 1, p) ==> Outside(img, stride, off, n, p);
    assert forall p :: Spared(s, img, stride, off, n + 1, p) ==> Spared(s, img, stride, off, n, p);
  }

  /** The rest of the headers loads nothing that was not allowed before. */
  lemma {:induction false} OnlySegmentsMore(s: Space, t: Space, img: seq<Byte>, stride: nat, off: nat, n: nat, m: nat)
    requires WellFormed(img, stride) && n <= m <= Phnum(img, 0) && OnlySegments(s, t, img, stride, off, n)
    ensures OnlySegments(s, t, img, stride, off, m)
    decreases m - n
  {
    hide OnlySegments;
    if n < m {
      OnlySegmentsSkip(s, t, img, stride, off, n);
      OnlySegmentsMore(s, t, img, stride, off, n + 1, m);
    }
  }

  lemma OnlySegmentsStep(s: Space, t: Space, t2: Space, img: seq<Byte>, stride: nat, off: nat, n: nat)
    requires WellFormed(img, stride) && n < Phnum(img, 0) && OnlySegments(s, t, img, stride, off, n)
    requires var ph := Header(img, stride, n); ph.loadable && Untouched(t, t2, ph, off) && Grown(t, t2, ph, off)
    ensures OnlySegments(s, t2, img, stride, off, n + 1)
  {
    hide Header, InPages, Keeps, Page, Hit;
    KeepsTransitive(s, t, t2);
    KeepsIsSound(s, t2);
    assert forall p :: Outside(img, stride, off, n + 1, p) ==>
      Outside(img, stride, off, n, p) && !InPages(Header(img, stride, n), off, p);
    forall u: nat | s.Backed(Page(u)) && Spared(s, img, stride, off, n + 1, Page(u))
      ensures t2.Backed(Page(u)) && t2.At(u) == s.At(u)
    {
      assert Spared(s, img, stride, off, n, Page(u));
      HitLater(s, t, Header(img, stride, n), off, Page(u));
    }
  }

  lemma ImageOnSkip(t: Space, img: seq<Byte>, stride: nat, off: nat, n: nat)
    requires WellFormed(img, stride) && n < Phnum(img, 0) && off < U64 && t.Sound()
    requires ImageOn(t, img, stride, off, n) && !Header(img, stride, n).loadable
    ensures ImageOn(t, img, stride, off, n + 1)
  {
    hide Header, HeldAt, OnPages, Page;
    var m := n + 1;
    forall v: nat | v < U64 ensures LastHeld(t, img, stride, off, m, v) {
      assert LastHeld(t, img, stride, off, n, v);
    }
  }

  /** A page of an earlier segment, which is not on this one, keeps its bytes. */
  lemma OtherPageKept(t: Space, t2: Space, img: seq<Byte>, stride: nat, off: nat, n: nat, u: nat)
    requires WellFormed(img, stride) && n < Phnum(img, 0) && TameTargets(t, img, stride, off)
    requires Header(img, stride, n).loadable && Untouched(t, t2, Header(img, stride, n), off)
    requires InSegments(img, stride, off, Page(u)) && !InPages(Header(img, stride, n), off, Page(u)) && t.Seen(Page(u))
    ensures t.Sound() && t2.Sound() && t2.Seen(Page(u)) && t2.At(u) == t.At(u)
  {
    hide Header, InPages, InSegments, Page, Offset, Phnum, Keeps, SameFrame, Hit;
    var ph := Header(img, stride, n);
    UntouchedIsKeeps(t, t2, ph, off);
    KeepsIsSound(t, t2);
    if t.Backed(Page(u)) {
      SameFrameItself(t, Page(u));
      NotHitByOthers(t, img, stride, off, n, Page(u), Page(u));
    } else {
      var q :| t.Backed(q) && SameFrame(t, Page(u), q);
      NotHitByOthers(t, img, stride, off, n, Page(u), q);
      MovedFacts(t, u, q);
      OldFramesLater(t, t2, Page(u), q);
      MovedFacts(t2, u, q);
    }
  }

  lemma OldFramesLater(s: Space, t: Space, p: nat, q: nat)
    requires Keeps(s, t) && SameFrame(s, p, q) && s.Seen(p)
    ensures SameFrame(t, p, q) && t.Seen(p)
  {
  }

  /** Segment `n` is not written to the page, or the home of the page, of another segment. */
  lemma NotHitByOthers(t: Space, img: seq<Byte>, stride: nat, off: nat, n: nat, p: nat, q: nat)
    requires WellFormed(img, stride) && n < Phnum(img, 0) && TameTargets(t, img, stride, off)
    requires Header(img, stride, n).loadable
    requires InSegments(img, stride, off, p) && !InPages(Header(img, stride, n), off, p) && SameFrame(t, p, q)
    ensures !Hit(t, Header(img, stride, n), off, q)
  {
    hide Header, InPages, InSegments, Phnum;
    var ph := Header(img, stride, n);
    forall h | InPages(ph, off, h) ensures !SameFrame(t, h, q) {
      SegmentInSegments(img, stride, off, n, h);
      assert SameFrame(t, h, q) ==> SameFrame(t, h, p);
    }
    assert SameFrame(t, q, q);
  }

  /** One more segment: its own pages now hold its bytes, the other segments' pages are as they were. */
  lemma ImageOnStep(t: Space, t2: Space, img: seq<Byte>, stride: nat, off: nat, n: nat)
    requires WellFormed(img, stride) && n < Phnum(img, 0) && off < U64 && off % PAGE_SIZE == 0
    requires t.Sound() && t2.Sound() && ImageOn(t, img, stride, off, n) && TameTargets(t, img, stride, off)
    requires var ph := Header(img, stride, n); ph.loadable && Untouched(t, t2, ph, off) && PagesHold(t2, img, ph, off)
    ensures ImageOn(t2, img, stride, off, n + 1)
  {
    hide Header, OnPages, Page, InPages, Keeps, Relocate, Content, SegmentFits, Untouched, TameTargets, InSegments;
    var ph := Header(img, stride, n);
    var m := n + 1;
    forall v: nat | v < U64 ensures LastHeld(t2, img, stride, off, m, v) {
      if OnPages(ph, Page(v)) {
        assert HeldAt(t2, img, ph, off, v);
      } else {
        assert LastHeld(t, img, stride, off, n, v);
        var j := LastOn(img, stride, n, Page(v));
        LastOnFacts(img, stride, n, Page(v));
        if j >= 0 {
          OffPages(ph, off, v);
          RelocatedOnPages(Header(img, stride, j), off, v);
          SegmentInSegments(img, stride, off, j, Page(Relocate(v, off)));
          OtherPageKept(t, t2, img, stride, off, n, Relocate(v, off));
        }
      }
    }
  }

  lemma OffPages(ph: Phdr, off: nat, v: nat)
    requires v < U64 && off < U64 && off % PAGE_SIZE == 0 && !OnPages(ph, Page(v))
    ensures !InPages(ph, off, Page(Relocate(v, off)))
  {
    RelocatePage(v, off);
  }

  lemma HeadersInPlace(s: Space, t: Space, base: nat, img: seq<Byte>)
    requires Sourced(s, base, img) && Keeps(s, t)
    ensures base + EHDR_SIZE <= |t.ram| && Sourced(t, base, img)
    ensures HasMagic(t.ram, base) && EntryPoint(t.ram, base) == EntryPoint(img, 0)
    ensures Phoff(t.ram, base) == Phoff(img, 0) && Phentsize(t.ram, base) == Phentsize(img, 0)
    ensures Phnum(t.ram, base) == Phnum(img, 0)
  {
    StillPlaced(s, t, base, img);
    EhdrOfSlice(t.ram, base, img);
  }

  lemma HeaderInPlace(t: Space, base: nat, img: seq<Byte>, stride: nat, i: nat)
    requires Placed(t, base, img) && WellFormed(img, stride) && i < Phnum(img, 0)
    ensures HeaderPos(img, stride, i) + PHDR_SIZE <= |img| && base + HeaderPos(img, stride, i) + PHDR_SIZE <= |t.ram|
    ensures PhdrAt(t.ram, base + HeaderPos(img, stride, i)) == Header(img, stride, i)
  {
    hide PhdrAt, HeaderPos, Phnum;
    PhdrOfSlice(t.ram, base, img, HeaderPos(img, stride, i));
  }

  /** `load_and_get_entry`. Whenever it returns, the entry point was relocated like the segments, and existing mappings
      and everything outside the allocator's frames are as before. For a well-formed image, however the call ends, only
      pages of its segments were mapped and no byte changed on a page that the segments are not written to, neither as one of
      theirs nor through a mapping of the bootloader; a store goes astray only through a page of the bootloader that leads to
      no user page. If in addition the targets are tame, then after a return every byte on the segments' pages is what
      the last segment on that page puts there, all segments can be read back by the user exactly if nothing is lost that way
      and no byte is on a page of the bootloader, and nothing but a lack of frames or an error of the page-table code can
      have stopped the load. */
  method LoadAndGetEntry(k: Kernel, base: nat, ghost img: seq<Byte>) returns (r: LoadResult)
    requires k.Valid()
    modifies k, k.allocator
    ensures k.Valid() && Keeps(old(k.S()), k.S()) && k.mapErrors >= old(k.mapErrors)
    ensures Sourced(old(k.S()), base, img) ==>
      var off, stride := RelocationOf(EntryPoint(img, 0)), Phentsize(img, 0);
      && !r.NotElf? && !r.Overflow?
      && OnlySegments(old(k.S()), k.S(), img, stride, off, Phnum(img, 0))
      && (r.Wild? ==> SomeHomeless(old(k.S()), img, stride, off))
      && (NoLoadHeaders(img, stride) ==> r.Loaded? && k.S() == old(k.S()) && k.allocator.handed == old(k.allocator.handed))
    ensures KernelLoadable(old(k.S()), base, img) ==>
      var off, stride := RelocationOf(EntryPoint(img, 0)), Phentsize(img, 0);
      && !r.Wild?
      && (r.Loaded? ==>
            && r.entry == UserAddress(EntryPoint(img, 0), EntryPoint(img, 0))
            && ImageOn(k.S(), img, stride, off, Phnum(img, 0))
            && (InUserPlace(k.S(), img, stride) <==> NothingLost(img, stride) && OffBoot(k.boot, img, stride, off)))
      && (r.NoFrames? ==> k.allocator.handed == |k.S().all|)
      && (r.Fault? && GoodTargets(img, stride, off) ==> k.mapErrors > old(k.mapErrors))
    ensures r.NotElf? ==> base + EHDR_SIZE <= |old(k.ram)| && !HasMagic(old(k.ram), base)
    ensures r.Loaded? ==>
      && base + EHDR_SIZE <= |old(k.ram)| && HasMagic(old(k.ram), base)
      && var e := EntryPoint(old(k.ram), base);
         r.entry == if e >= 0xFFFF_FFFF_8000_0000 then e - 0xFFFF_FFFF_8020_0000 + 0x40_0000 else e
  {
    hide OneRole, AllFrames, NoOverflow, CursorAt, Tame, TameTargets, GoodTarget, PagesHold, Keeps, Untouched, Grown, Placed,
         Relocate, EndPage, WellFormed, OnlySegments, ImageOn, Header, PhdrAt, HasMagic, EntryPoint, Phoff, Phnum, Phentsize,
         Homeless, SomeHomeless;
    ghost var s := k.S();
    ghost var sourced, good := Sourced(s, base, img), KernelLoadable(s, base, img);
    KeepsReflexive(s, k.allocator.handed, k.roles);
    KeepsIsSound(s, s);
    if sourced { HeadersInPlace(s, s, base, img); }
    ghost var stride := if sourced then Phentsize(img, 0) else 0;
    ghost var reloc := if sourced then RelocationOf(EntryPoint(img, 0)) else 0;
    if sourced {
      OnlySegmentsNone(s, img, stride, reloc);
      OnlySegmentsMore(s, s, img, stride, reloc, 0, Phnum(img, 0));
    }
    ghost var none := sourced && NoLoadHeaders(img, stride);
    if base + EHDR_SIZE > |k.ram| {
      return Fault;
    }
    if !HasMagic(k.ram, base) {
      return NotElf;
    }
    var entry := EntryPoint(k.ram, base);
    var off := RelocationOf(entry);
    var entryPoint := Relocate(entry, off);
    EntryMoves(entry);
    var phdrBase := base + Phoff(k.ram, base);
    var phnum := Phnum(k.ram, base);
    for i := 0 to phnum
      invariant k.Valid() && Keeps(s, k.S()) && k.S().Sound() && |k.ram| == |s.ram|
      invariant sourced ==> OnlySegments(s, k.S(), img, stride, off, i)
      invariant good ==> ImageOn(k.S(), img, stride, off, i) && TameTargets(k.S(), img, stride, off)
      invariant none ==> k.S() == s && k.allocator.handed == old(k.allocator.handed)
      invariant k.mapErrors >= old(k.mapErrors)
    {
      ghost var t := k.S();
      if sourced {
        OnlySegmentsMore(s, t, img, stride, off, i, phnum);
        HeadersInPlace(s, t, base, img);
        HeaderInPlace(t, base, img, stride, i);
      }
      var at := phdrBase + i * Phentsize(k.ram, base);
      if at + PHDR_SIZE > |k.ram| {
        return Fault;
      }
      var ph := PhdrAt(k.ram, at);
      assert sourced ==> ph == Header(img, stride, i);
      if none { NoLoadHeader(img, stride, i); }
      if ph.loadable {
        if sourced { FitsIfWellFormed(img, stride, i); }
        if good { TameSegment(t, img, stride, off, i); }
        if ph.vaddr + ph.memsz + (PAGE_SIZE - 1) >= U64 {
          return Overflow;
        }
        var o := LoadSegment(k, base, ph, off, img);
        KeepsTransitive(s, t, k.S());
        KeepsIsSound(s, k.S());
        if sourced {
          OnlySegmentsStep(s, t, k.S(), img, stride, off, i);
          OnlySegmentsMore(s, k.S(), img, stride, off, i + 1, phnum);
        }
        if o.OutOfFrames? { return NoFrames; }
        if o.Faulted? { return Fault; }
        if o.Strayed? {
          if sourced { HomelessBefore(s, t, img, stride, off, i); }
          if good { TameIsHomed(s, img, stride, off); }
          return Wild;
        }
        if good {
          ImageOnStep(t, k.S(), img, stride, off, i);
          TameLater(t, k.S(), img, stride, off, i);
        }
      } else if sourced {
        OnlySegmentsSkip(s, t, img, stride, off, i);
        if good { ImageOnSkip(t, img, stride, off, i); }
      }
    }
    if good {
      ReadBackIff(k.S(), img, stride, off);
      UserPlaceIff(k.S(), img, stride);
    }
    return Loaded(entryPoint);
  }

  /** A page without a home had none before. */
  lemma HomelessBefore(s: Space, t: Space, img: seq<Byte>, stride: nat, off: nat, i: nat)
    requires WellFormed(img, stride) && i < Phnum(img, 0) && Header(img, stride, i).loadable
    requires Keeps(s, t) && Homeless(t, Header(img, stride, i), off)
    ensures SomeHomeless(s, img, stride, off)
  {
    hide Header, InPages, Phnum;
    var ph := Header(img, stride, i);
    var h :| InPages(ph, off, h) && h in t.boot && !HasHome(t, h);
    forall q | s.Backed(q) ensures !SameFrame(s, h, q) {
      assert t.Backed(q) && !SameFrame(t, h, q);
    }
    assert Homeless(s, ph, off);
  }

  /** Tame targets lead to no page without a home. */
  lemma TameIsHomed(s: Space, img: seq<Byte>, stride: nat, off: nat)
    requires WellFormed(img, stride) && TameTargets(s, img, stride, off) && s.Sound()
    ensures !SomeHomeless(s, img, stride, off)
  {
    hide Header, InPages, Phnum, InSegments;
    if SomeHomeless(s, img, stride, off) {
      var i: nat :| i < Phnum(img, 0) && Header(img, stride, i).loadable && Homeless(s, Header(img, stride, i), off);
      var h :| InPages(Header(img, stride, i), off, h) && h in s.boot && !HasHome(s, h);
      SegmentInSegments(img, stride, off, i, h);
    }
  }

  lemma KeepsReflexive(s: Space, n: nat, roles: map<nat, Role>)
    requires OneRole(s, n, roles)
    ensures Keeps(s, s)
  {
  }

  lemma FitsIfWellFormed(img: seq<Byte>, stride: nat, i: nat)
    requires WellFormed(img, stride) && i < Phnum(img, 0) && Header(img, stride, i).loadable
    ensures SegmentFits(img, Header(img, stride, i))
  {
  }

  // ---- When every segment survives ----

  /** Byte `k` of segment `i` is what the last segment on its page puts there. */
  ghost predicate Survives(img: seq<Byte>, stride: nat, i: nat, k: nat)
    requires WellFormed(img, stride) && i < Phnum(img, 0)
    requires Header(img, stride, i).loadable && k < Header(img, stride, i).memsz
  {
    var v := Header(img, stride, i).vaddr + k;
    var j := LastOn(img, stride, Phnum(img, 0), Page(v));
    j > i && Header(img, stride, j).loadable ==> Content(img, Header(img, stride, j), v) == Expected(img, Header(img, stride, i), k)
  }

  /** No later segment on a page takes a byte from an earlier one. This is a property of the file alone. */
  ghost predicate NothingLost(img: seq<Byte>, stride: nat)
    requires WellFormed(img, stride)
  {
    forall i: nat, k: nat :: i < Phnum(img, 0) && Header(img, stride, i).loadable && k < Header(img, stride, i).memsz ==>
      Survives(img, stride, i, k)
  }

  /** No byte of a segment is on a page of the bootloader, where a user program cannot read it. */
  ghost predicate OffBoot(boot: set<nat>, img: seq<Byte>, stride: nat, off: nat)
    requires WellFormed(img, stride) && off < U64
  {
    forall i: nat, k: nat :: i < Phnum(img, 0) && Header(img, stride, i).loadable && k < Header(img, stride, i).memsz ==>
      UserByte(boot, img, Header(img, stride, i), off, k)
  }

  predicate UserByte(boot: set<nat>, img: seq<Byte>, ph: Phdr, off: nat, k: nat)
    requires SegmentFits(img, ph) && k < ph.memsz && off < U64
  {
    Page(Relocate(ph.vaddr + k, off)) !in boot
  }

  lemma OwnContent(img: seq<Byte>, ph: Phdr, k: nat)
    requires SegmentFits(img, ph) && k < ph.memsz
    ensures Content(img, ph, ph.vaddr + k) == Expected(img, ph, k) && OnPages(ph, Page(ph.vaddr + k)) && ph.vaddr + k < U64
  {
    PageOfByte(ph, k);
  }

  lemma SurvivesIff(t: Space, img: seq<Byte>, stride: nat, off: nat, i: nat, k: nat)
    requires t.Sound() && WellFormed(img, stride) && off < U64 && ImageOn(t, img, stride, off, Phnum(img, 0))
    requires i < Phnum(img, 0) && Header(img, stride, i).loadable && k < Header(img, stride, i).memsz
    ensures ByteAt(t, img, Header(img, stride, i), off, k) <==>
            Survives(img, stride, i, k) && UserByte(t.boot, img, Header(img, stride, i), off, k)
  {
    hide Header, Content, Expected, OnPages, Page, Relocate, LastOn;
    var ph := Header(img, stride, i);
    var v := ph.vaddr + k;
    OwnContent(img, ph, k);
    assert LastHeld(t, img, stride, off, Phnum(img, 0), v);
    assert SegmentOn(img, stride, i, Page(v));
    LastOnFacts(img, stride, Phnum(img, 0), Page(v));
  }

  /** After a load a user program can read back every segment if and only if no later segment takes a byte from an earlier
      one on a page they share, and none is on a page of the bootloader. */
  lemma ReadBackIff(t: Space, img: seq<Byte>, stride: nat, off: nat)
    requires t.Sound() && WellFormed(img, stride) && off < U64 && ImageOn(t, img, stride, off, Phnum(img, 0))
    ensures ImageAt(t, img, stride, off, Phnum(img, 0)) <==> NothingLost(img, stride) && OffBoot(t.boot, img, stride, off)
  {
    hide Header, Survives, UserByte, ByteAt, SegmentFits, ImageOn;
    forall i: nat, k: nat | i < Phnum(img, 0) && Header(img, stride, i).loadable && k < Header(img, stride, i).memsz
      ensures SegmentFits(img, Header(img, stride, i))
      ensures ByteAt(t, img, Header(img, stride, i), off, k) <==>
        Survives(img, stride, i, k) && UserByte(t.boot, img, Header(img, stride, i), off, k)
    {
      FitsIfWellFormed(img, stride, i);
      SurvivesIff(t, img, stride, off, i, k);
    }
    if NothingLost(img, stride) && OffBoot(t.boot, img, stride, off) {
      forall i: nat | i < Phnum(img, 0) && Header(img, stride, i).loadable
        ensures SegmentAt(t, img, Header(img, stride, i), off)
      {
        forall k: nat | k < Header(img, stride, i).memsz ensures ByteAt(t, img, Header(img, stride, i), off, k) {
          assert Survives(img, stride, i, k);
        }
      }
    }
    if ImageAt(t, img, stride, off, Phnum(img, 0)) {
      forall i: nat, k: nat | i < Phnum(img, 0) && Header(img, stride, i).loadable && k < Header(img, stride, i).memsz
        ensures Survives(img, stride, i, k) && UserByte(t.boot, img, Header(img, stride, i), off, k)
      {
        assert SegmentAt(t, img, Header(img, stride, i), off);
        assert ByteAt(t, img, Header(img, stride, i), off, k);
      }
    }
  }

  lemma SharedPage(img: seq<Byte>, stride: nat, i: nat, j: nat, q: nat)
    requires WellFormed(img, stride) && PageDisjoint(img, stride) && i < j < Phnum(img, 0)
    requires SegmentOn(img, stride, i, q)
    ensures !SegmentOn(img, stride, j, q)
  {
    hide Header, FirstPage, EndPage;
  }

  /** In particular nothing is lost if no two segments share a page. */
  lemma PageDisjointLosesNothing(img: seq<Byte>, stride: nat)
    requires WellFormed(img, stride) && PageDisjoint(img, stride)
    ensures NothingLost(img, stride)
  {
    hide Header, Content, Expected, SegmentFits;
    forall i: nat, k: nat | i < Phnum(img, 0) && Header(img, stride, i).loadable && k < Header(img, stride, i).memsz
      ensures Survives(img, stride, i, k)
    {
      var q := Page(Header(img, stride, i).vaddr + k);
      PageOfByte(Header(img, stride, i), k);
      forall j: nat | i < j < Phnum(img, 0) ensures !SegmentOn(img, stride, j, q) {
        SharedPage(img, stride, i, j, q);
      }
      LastOnFacts(img, stride, Phnum(img, 0), q);
    }
  }

  const SHARED_A := Phdr(true, 176, 0x40_0000, 1, 1)
  const SHARED_B := Phdr(true, 177, 0x40_0800, 1, 1)

  /** A file with two one-byte segments in the two halves of one page. */
  const SHARED_PAGE: seq<Byte> := File(0x40_0000, [Loading(176, 0x40_0000, 1, 1), Loading(177, 0x40_0800, 1, 1)], [1, 2])

  /** What the proofs need to know of it. */
  ghost predicate IsShared(img: seq<Byte>) {
    && EHDR_SIZE <= |img| == 178 && img[176] == 1 && WellFormed(img, PHDR_SIZE)
    && Phentsize(img, 0) == PHDR_SIZE && Phnum(img, 0) == 2 && EntryPoint(img, 0) == 0x40_0000
    && Header(img, PHDR_SIZE, 0) == SHARED_A && Header(img, PHDR_SIZE, 1) == SHARED_B
  }

  lemma SharedPageFile()
    ensures IsShared(SHARED_PAGE)
  {
    hide File, WellFormed, Header, Phentsize, Phnum, EntryPoint;
    var phs := [Loading(176, 0x40_0000, 1, 1), Loading(177, 0x40_0800, 1, 1)];
    FileReadBack(0x40_0000, phs, [1, 2]);
    assert SHARED_PAGE[176..] == [1, 2];
    FileWellFormed(0x40_0000, phs, [1, 2]);
  }

  /** The page is cleared again for the second segment, which takes the byte of the first: after every load of this
      file, the entry point reads 0 where the file has 1. */
  lemma SharedPageLosesByte(img: seq<Byte>, t: Space)
    requires IsShared(img) && t.Sound() && ImageOn(t, img, PHDR_SIZE, 0, Phnum(img, 0))
    ensures t.Seen(Page(0x40_0000)) && t.At(0x40_0000) == 0 && Expected(img, SHARED_A, 0) == 1
    ensures !NothingLost(img, PHDR_SIZE) && !ImageAt(t, img, PHDR_SIZE, 0, Phnum(img, 0))
  {
    hide WellFormed, Header, Phnum, ImageOn, ImageAt, Phentsize, EntryPoint;
    assert SegmentOn(img, PHDR_SIZE, 1, Page(0x40_0000));
    LastOnFacts(img, PHDR_SIZE, 2, Page(0x40_0000));
    assert LastOn(img, PHDR_SIZE, 2, Page(0x40_0000)) == 1;
    ImageOnAt(t, img, PHDR_SIZE, 0, 2, 0x40_0000);
    assert !Survives(img, PHDR_SIZE, 0, 0);
    ReadBackIff(t, img, PHDR_SIZE, 0);
  }

  lemma ImageOnAt(t: Space, img: seq<Byte>, stride: nat, off: nat, n: nat, v: nat)
    requires t.Sound() && WellFormed(img, stride) && n <= Phnum(img, 0) && off < U64 && v < U64
    requires ImageOn(t, img, stride, off, n)
    ensures LastHeld(t, img, stride, off, n, v)
  {
  }

  // ---- Segments on the bootloader's pages ----

  /** If no page of a segment is the bootloader's, the segments are written to their own pages only, and no store goes
      astray. */
  lemma OwnPagesOnly(s: Space, img: seq<Byte>, stride: nat, off: nat, p: nat)
    requires WellFormed(img, stride) && forall h :: InSegments(img, stride, off, h) ==> h !in s.boot
    ensures Spared(s, img, stride, off, Phnum(img, 0), p) <==> Outside(img, stride, off, Phnum(img, 0), p)
    ensures !SomeHomeless(s, img, stride, off)
  {
    hide Header, InPages, Phnum, InSegments, HasHome;
    forall i: nat, h | i < Phnum(img, 0) && Header(img, stride, i).loadable && InPages(Header(img, stride, i), off, h)
      ensures h !in s.boot
    {
      SegmentInSegments(img, stride, off, i, h);
    }
  }

  /** The other case: if the bootloader maps a page of a segment to the frame of the user page `q`, then after the load
      `q` holds what the last segment on that page puts there. */
  lemma WrittenToHome(s: Space, t: Space, img: seq<Byte>, stride: nat, off: nat, q: nat, v: nat)
    requires WellFormed(img, stride) && off < U64 && off % PAGE_SIZE == 0 && v < U64 && Keeps(s, t) && t.Sound()
    requires ImageOn(t, img, stride, off, Phnum(img, 0)) && LastOn(img, stride, Phnum(img, 0), Page(v)) >= 0
    requires s.Backed(q) && Page(Relocate(v, off)) in s.boot && SameFrame(s, Page(Relocate(v, off)), q)
    ensures var j := LastOn(img, stride, Phnum(img, 0), Page(v));
            && Header(img, stride, j).loadable && t.Backed(q)
            && Page(Moved(v, q)) == q && t.At(Moved(v, q)) == Content(img, Header(img, stride, j), v)
  {
    hide Header, Phnum, Page, Relocate, Content, OnPages, Offset;
    var u := Relocate(v, off);
    LastOnFacts(img, stride, Phnum(img, 0), Page(v));
    ImageOnAt(t, img, stride, off, Phnum(img, 0), v);
    RelocatePage(v, off);
    assert t.Backed(q) && SameFrame(t, Page(u), q);
    MovedFacts(t, u, q);
  }

  const DIRECT := Phdr(true, 120, 0xFFFF_8000_0010_0000, 1, 1)

  /** A file with an ordinary entry point, which is therefore not relocated, and one byte in the bootloader's direct map
      of physical memory. */
  const DIRECT_MAPPED: seq<Byte> := File(0x40_1000, [Loading(120, 0xFFFF_8000_0010_0000, 1, 1)], [0xAB])

  /** What the proofs need to know of it. */
  ghost predicate IsDirect(img: seq<Byte>) {
    && EHDR_SIZE <= |img| == 121 && img[120] == 0xAB && WellFormed(img, PHDR_SIZE)
    && Phentsize(img, 0) == PHDR_SIZE && Phnum(img, 0) == 1 && EntryPoint(img, 0) == 0x40_1000
    && Header(img, PHDR_SIZE, 0) == DIRECT
  }

  lemma DirectMappedFile()
    ensures IsDirect(DIRECT_MAPPED) && RelocationOf(0x40_1000) == 0
  {
    hide File, WellFormed, Header, Phentsize, Phnum, EntryPoint;
    FileReadBack(0x40_1000, [Loading(120, 0xFFFF_8000_0010_0000, 1, 1)], [0xAB]);
    assert DIRECT_MAPPED[120..] == [0xAB];
    FileWellFormed(0x40_1000, [Loading(120, 0xFFFF_8000_0010_0000, 1, 1)], [0xAB]);
  }

  lemma DirectPages(img: seq<Byte>)
    requires IsDirect(img)
    ensures forall p :: InSegments(img, PHDR_SIZE, 0, p) <==> p == Page(DIRECT.vaddr)
  {
    hide WellFormed, Header, Phnum, Phentsize, EntryPoint;
    assert forall p :: InPages(DIRECT, 0, p) <==> p == Page(DIRECT.vaddr);
    assert forall p :: Outside(img, PHDR_SIZE, 0, 1, p) <==> !InPages(DIRECT, 0, p);
  }

  /** If the direct map leads there to the frame of a user page, the file's targets are tame, so no store of the load goes
      astray. */
  lemma DirectMapIsTame(img: seq<Byte>, s: Space, q: nat)
    requires IsDirect(img) && s.Backed(q) && SameFrame(s, Page(DIRECT.vaddr), q)
    ensures TameTargets(s, img, PHDR_SIZE, 0)
  {
    DirectPages(img);
    hide IsDirect, InSegments;
    assert Good(s, Page(DIRECT.vaddr));
  }

  /** And every load of it writes its byte into that user page, which none of its segments names. */
  lemma DirectMapOverwrites(img: seq<Byte>, s: Space, t: Space, q: nat)
    requires IsDirect(img) && Keeps(s, t) && t.Sound() && ImageOn(t, img, PHDR_SIZE, 0, Phnum(img, 0))
    requires s.Backed(q) && Page(DIRECT.vaddr) in s.boot && SameFrame(s, Page(DIRECT.vaddr), q)
    ensures !InSegments(img, PHDR_SIZE, 0, q)
    ensures var u := q * PAGE_SIZE; t.Backed(Page(u)) && t.At(u) == 0xAB
  {
    hide WellFormed, Header, Phnum, ImageOn, Phentsize, EntryPoint, Keeps;
    DirectPages(img);
    assert SegmentOn(img, PHDR_SIZE, 0, Page(DIRECT.vaddr));
    LastOnFacts(img, PHDR_SIZE, 1, Page(DIRECT.vaddr));
    WrittenToHome(s, t, img, PHDR_SIZE, 0, q, DIRECT.vaddr);
    assert Moved(DIRECT.vaddr, q) == q * PAGE_SIZE;
  }

  /** An entry point inside a segment: once the image is in memory, the relocated entry is at the same distance from
      the segment's start, and the byte that is fetched there is the one that the file has for it. */
  lemma EntryKeepsItsPlace(t: Space, img: seq<Byte>, stride: nat, off: nat, i: nat)
    requires t.Sound() && WellFormed(img, stride) && off < U64 && ImageAt(t, img, stride, off, Phnum(img, 0))
    requires i < Phnum(img, 0) && Header(img, stride, i).loadable
    requires var ph := Header(img, stride, i); ph.vaddr <= EntryPoint(img, 0) < ph.vaddr + ph.memsz
    ensures var ph := Header(img, stride, i);
            var k, e := EntryPoint(img, 0) - ph.vaddr, Relocate(EntryPoint(img, 0), off);
            Dist(Relocate(ph.vaddr, off), e) == k && t.Backed(Page(e)) && t.At(e) == Expected(img, ph, k)
  {
    hide Header, EntryPoint, Page;
    var ph := Header(img, stride, i);
    FitsIfWellFormed(img, stride, i);
    assert SegmentAt(t, img, ph, off);
    assert ByteAt(t, img, ph, off, EntryPoint(img, 0) - ph.vaddr);
  }
}
