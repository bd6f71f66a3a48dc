/** ELF64 files written from an entry point, a list of program headers and the bytes behind them, and the reader's fields
    read back from them. */
module ElfWriter {
  import opened Collections
  import opened Words
  import opened Memory
  import opened Elf

  /** `n` bytes of `x`, least significant first. */
  function Le(x: nat, n: nat): (b: seq<Byte>)
    ensures |b| == n
  {
    if n == 0 then [] else [x % 256] + Le(x / 256, n - 1)
  }

  /** Reading a field undoes writing it. */
  lemma {:induction false} FieldOfLe(b: seq<Byte>, at: nat, x: nat, n: nat)
    requires at + n <= |b| && b[at..at + n] == Le(x, n) && x < Pow256(n)
    ensures Field(b, at, n) == x
    decreases n
  {
    if n != 0 {
      assert b[at..at + n][0] == b[at] && b[at + 1..at + n] == b[at..at + n][1..];
      FieldOfLe(b, at + 1, x / 256, n - 1);
    }
  }

  /** All eight fields of a program header, in the file's order. */
  datatype RawPhdr =
    RawPhdr(kind: nat, flags: nat, offset: nat, vaddr: nat, paddr: nat, filesz: nat, memsz: nat, align: nat)

  predicate Writable(r: RawPhdr) {
    && r.kind < 0x1_0000_0000 && r.flags < 0x1_0000_0000 && r.offset < U64 && r.vaddr < U64 && r.paddr < U64
    && r.filesz < U64 && r.memsz < U64 && r.align < U64
  }

  /** A header of type 1 with all permissions. */
  function Loading(offset: nat, vaddr: nat, filesz: nat, memsz: nat): RawPhdr {
    RawPhdr(1, 7, offset, vaddr, 0, filesz, memsz, 0x1000)
  }

  function PhdrBytes(r: RawPhdr): (b: seq<Byte>)
    ensures |b| == PHDR_SIZE
  {
    Le(r.kind, 4) + Le(r.flags, 4) + Le(r.offset, 8) + Le(r.vaddr, 8) + Le(r.paddr, 8)
    + Le(r.filesz, 8) + Le(r.memsz, 8) + Le(r.align, 8)
  }

  lemma Piece(b: seq<Byte>, at: nat, h: seq<Byte>, i: nat, x: nat, n: nat)
    requires at + |h| <= |b| && b[at..at + |h|] == h && i + n <= |h| && h[i..i + n] == Le(x, n) && x < Pow256(n)
    ensures Field(b, at + i, n) == x
  {
    hide Le, Field;
    SubSlice(b, at, h, i, i + n);
    FieldOfLe(b, at + i, x, n);
  }

  /** Of a written header the loaders see whether its type is 1, and its offset, virtual address and sizes, whatever
      the flags, the physical address and the alignment are. */
  lemma PhdrReadBack(b: seq<Byte>, at: nat, r: RawPhdr)
    requires Writable(r) && at + PHDR_SIZE <= |b| && b[at..at + PHDR_SIZE] == PhdrBytes(r)
    ensures Field(b, at, 4) == r.kind
    ensures PhdrAt(b, at) == Phdr(r.kind == 1, r.offset, r.vaddr, r.filesz, r.memsz)
  {
    hide Field, Le;
    var h := PhdrBytes(r);
    WordFits();
    assert Pow256(4) == 0x1_0000_0000;
    Piece(b, at, h, 0, r.kind, 4);
    Piece(b, at, h, 8, r.offset, 8);
    Piece(b, at, h, 16, r.vaddr, 8);
    Piece(b, at, h, 32, r.filesz, 8);
    Piece(b, at, h, 40, r.memsz, 8);
  }

  /** A file header: `ident`, `middle` and `tail` are the bytes between the fields that the loaders read. */
  datatype RawEhdr =
    RawEhdr(ident: seq<Byte>, entry: nat, phoff: nat, middle: seq<Byte>, phentsize: nat, phnum: nat, tail: seq<Byte>)

  predicate WritableEhdr(e: RawEhdr) {
    && |e.ident| == 20 && e.entry < U64 && e.phoff < U64 && |e.middle| == 14 && e.phentsize < 0x1_0000
    && e.phnum < 0x1_0000 && |e.tail| == 6
  }

  function EhdrBytes(e: RawEhdr): (b: seq<Byte>)
    requires WritableEhdr(e)
    ensures |b| == EHDR_SIZE
  {
    [0x7F, 0x45, 0x4C, 0x46] + e.ident + Le(e.entry, 8) + Le(e.phoff, 8) + e.middle + Le(e.phentsize, 2) + Le(e.phnum, 2) + e.tail
  }

  lemma EhdrReadBack(b: seq<Byte>, e: RawEhdr)
    requires WritableEhdr(e) && EHDR_SIZE <= |b| && b[..EHDR_SIZE] == EhdrBytes(e)
    ensures HasMagic(b, 0) && EntryPoint(b, 0) == e.entry && Phoff(b, 0) == e.phoff
    ensures Phentsize(b, 0) == e.phentsize && Phnum(b, 0) == e.phnum
  {
    hide Field, Le;
    var h := EhdrBytes(e);
    assert b[0..0 + |h|] == h;
    WordFits();
    assert Pow256(2) == 0x1_0000;
    Piece(b, 0, h, 24, e.entry, 8);
    Piece(b, 0, h, 32, e.phoff, 8);
    Piece(b, 0, h, 54, e.phentsize, 2);
    Piece(b, 0, h, 56, e.phnum, 2);
    assert b[0] == h[0] && b[1] == h[1] && b[2] == h[2] && b[3] == h[3];
  }

  function HeaderTable(phs: seq<RawPhdr>): (b: seq<Byte>)
    ensures |b| == |phs| * PHDR_SIZE
  {
    if phs == [] then [] else HeaderTable(phs[..|phs| - 1]) + PhdrBytes(phs[|phs| - 1])
  }

  lemma {:induction false} TableEntry(phs: seq<RawPhdr>, i: nat)
    requires i < |phs|
    ensures HeaderTable(phs)[i * PHDR_SIZE..(i + 1) * PHDR_SIZE] == PhdrBytes(phs[i])
  {
    hide PhdrBytes;
    var front := phs[..|phs| - 1];
    if i < |front| {
      TableEntry(front, i);
      assert HeaderTable(phs)[i * PHDR_SIZE..(i + 1) * PHDR_SIZE] == HeaderTable(front)[i * PHDR_SIZE..(i + 1) * PHDR_SIZE];
    }
  }

  /** The file header of a file whose program headers follow it directly. */
  function FileHeader(entry: nat, n: nat): RawEhdr {
    RawEhdr(Le(0, 20), entry, EHDR_SIZE, Le(0, 14), PHDR_SIZE, n, Le(0, 6))
  }

  /** A whole file. */
  function File(entry: nat, phs: seq<RawPhdr>, data: seq<Byte>): seq<Byte>
    requires entry < U64 && |phs| < 0x1_0000
  {
    EhdrBytes(FileHeader(entry, |phs|)) + HeaderTable(phs) + data
  }

  /** Where the data starts in the file. */
  function DataAt(phs: seq<RawPhdr>): nat { EHDR_SIZE + |phs| * PHDR_SIZE }

  function Reading(r: RawPhdr): Phdr {
    Phdr(r.kind == 1, r.offset, r.vaddr, r.filesz, r.memsz)
  }

  /** Everything the loaders read from a written file is what was written. */
  lemma FileReadBack(entry: nat, phs: seq<RawPhdr>, data: seq<Byte>)
    requires entry < U64 && |phs| < 0x1_0000 && forall ph :: ph in phs ==> Writable(ph)
    ensures var f := File(entry, phs, data);
            && |f| == DataAt(phs) + |data| && f[DataAt(phs)..] == data
            && HasMagic(f, 0) && EntryPoint(f, 0) == entry && Phentsize(f, 0) == PHDR_SIZE && Phnum(f, 0) == |phs|
            && forall i: nat :: i < |phs| ==>
                 HeaderPos(f, PHDR_SIZE, i) + PHDR_SIZE <= |f| && Header(f, PHDR_SIZE, i) == Reading(phs[i])
  {
    hide PhdrBytes, EhdrBytes, HeaderTable, HasMagic, EntryPoint, Phoff, Phentsize, Phnum, PhdrAt;
    var f := File(entry, phs, data);
    var e := FileHeader(entry, |phs|);
    assert f[..EHDR_SIZE] == EhdrBytes(e);
    EhdrReadBack(f, e);
    forall i: nat | i < |phs|
      ensures HeaderPos(f, PHDR_SIZE, i) + PHDR_SIZE <= |f| && Header(f, PHDR_SIZE, i) == Reading(phs[i])
    {
      var at := EHDR_SIZE + i * PHDR_SIZE;
      TableEntry(phs, i);
      assert f[at..at + PHDR_SIZE] == HeaderTable(phs)[i * PHDR_SIZE..(i + 1) * PHDR_SIZE];
      PhdrReadBack(f, at, phs[i]);
    }
  }

  /** A written file is well formed if its loadable segments fit. */
  lemma FileWellFormed(entry: nat, phs: seq<RawPhdr>, data: seq<Byte>)
    requires entry < U64 && |phs| < 0x1_0000 && forall ph :: ph in phs ==> Writable(ph)
    requires forall ph :: ph in phs && ph.kind == 1 ==> SegmentFits(File(entry, phs, data), Reading(ph))
    ensures WellFormed(File(entry, phs, data), PHDR_SIZE)
  {
    hide File, HasMagic, Phnum, SegmentFits, Header;
    FileReadBack(entry, phs, data);
  }
}
