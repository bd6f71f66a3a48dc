/** ELF64 images as byte strings: the header fields both loaders read, and what a loaded segment has
    to look like in memory (System V gABI, chapter 5, "Program Header"). */
module Elf {
  import opened Words
  import opened Frames
  import opened Memory

  const EHDR_SIZE: nat := 64
  const PHDR_SIZE: nat := 56
  /** Number of 4 KiB pages in a 64-bit address space. */
  const PAGES: nat := 0x10_0000_0000_0000

  function Pow256(n: nat): (p: nat)
    ensures p > 0
  {
    if n == 0 then 1 else 256 * Pow256(n - 1)
  }

  /** A little-endian field of `n` bytes. */
  function Field(b: seq<Byte>, at: nat, n: nat): (x: nat)
    requires at + n <= |b|
    ensures x < Pow256(n)
    decreases n
  {
    if n == 0 then 0 else b[at] + 256 * Field(b, at + 1, n - 1)
  }

  lemma WordFits()
    ensures Pow256(8) == U64
  {
    assert Pow256(4) == 0x1_0000_0000;
  }

  datatype Phdr = Phdr(loadable: bool, offset: nat, vaddr: nat, filesz: nat, memsz: nat)

  function PhdrAt(b: seq<Byte>, at: nat): (ph: Phdr)
    requires at + PHDR_SIZE <= |b|
    ensures ph.offset < U64 && ph.vaddr < U64 && ph.filesz < U64 && ph.memsz < U64
  {
    WordFits();
    Phdr(Field(b, at, 4) == 1, Field(b, at + 8, 8), Field(b, at + 16, 8), Field(b, at + 32, 8), Field(b, at + 40, 8))
  }

  predicate HasMagic(b: seq<Byte>, at: nat)
    requires at + EHDR_SIZE <= |b|
  {
    b[at] == 0x7F && b[at + 1] == 0x45 && b[at + 2] == 0x4C && b[at + 3] == 0x46
  }

  /** The magic number is the only thing the loaders check before they read the fields. */
  lemma MagicIff(b: seq<Byte>, at: nat)
    requires at + EHDR_SIZE <= |b|
    ensures HasMagic(b, at) <==> b[at..at + 4] == [0x7F, 'E' as int, 'L' as int, 'F' as int]
  {
    var m: seq<Byte> := b[at..at + 4];
    assert m[0] == b[at] && m[1] == b[at + 1] && m[2] == b[at + 2] && m[3] == b[at + 3];
  }

  function EntryPoint(b: seq<Byte>, at: nat): (e: nat)
    requires at + EHDR_SIZE <= |b|
    ensures e < U64
  {
    WordFits();
    Field(b, at + 24, 8)
  }

  function Phoff(b: seq<Byte>, at: nat): nat
    requires at + EHDR_SIZE <= |b|
  {
    Field(b, at + 32, 8)
  }

  function Phentsize(b: seq<Byte>, at: nat): nat
    requires at + EHDR_SIZE <= |b|
  {
    Field(b, at + 54, 2)
  }

  function Phnum(b: seq<Byte>, at: nat): nat
    requires at + EHDR_SIZE <= |b|
  {
    Field(b, at + 56, 2)
  }

  /** The same bytes give the same field, wherever they lie. */
  lemma {:induction false} FieldOfSlice(b: seq<Byte>, base: nat, img: seq<Byte>, at: nat, n: nat)
    requires base + |img| <= |b| && img == b[base..base + |img|] && at + n <= |img|
    ensures Field(b, base + at, n) == Field(img, at, n)
    decreases n
  {
    if n != 0 {
      FieldOfSlice(b, base, img, at + 1, n - 1);
      assert b[base + at] == img[at];
    }
  }

  lemma PhdrOfSlice(b: seq<Byte>, base: nat, img: seq<Byte>, at: nat)
    requires base + |img| <= |b| && img == b[base..base + |img|] && at + PHDR_SIZE <= |img|
    ensures PhdrAt(b, base + at) == PhdrAt(img, at)
  {
    hide Field;
    FieldOfSlice(b, base, img, at, 4);
    FieldOfSlice(b, base, img, at + 8, 8);
    FieldOfSlice(b, base, img, at + 16, 8);
    FieldOfSlice(b, base, img, at + 32, 8);
    FieldOfSlice(b, base, img, at + 40, 8);
  }

  lemma EhdrOfSlice(b: seq<Byte>, base: nat, img: seq<Byte>)
    requires base + |img| <= |b| && img == b[base..base + |img|] && EHDR_SIZE <= |img|
    ensures HasMagic(b, base) == HasMagic(img, 0) && EntryPoint(b, base) == EntryPoint(img, 0)
    ensures Phoff(b, base) == Phoff(img, 0) && Phentsize(b, base) == Phentsize(img, 0) && Phnum(b, base) == Phnum(img, 0)
  {
    hide Field;
    FieldOfSlice(b, base, img, 24, 8);
    FieldOfSlice(b, base, img, 32, 8);
    FieldOfSlice(b, base, img, 54, 2);
    FieldOfSlice(b, base, img, 56, 2);
    assert b[base] == img[0] && b[base + 1] == img[1] && b[base + 2] == img[2] && b[base + 3] == img[3];
  }

  function HeaderPos(img: seq<Byte>, stride: nat, i: nat): nat
    requires EHDR_SIZE <= |img|
  {
    Phoff(img, 0) + i * stride
  }

  /** The segment's bytes lie in the file, fit in its memory size, and its end can be rounded up to a page. */
  predicate SegmentFits(img: seq<Byte>, ph: Phdr) {
    ph.offset + ph.filesz <= |img| && ph.filesz <= ph.memsz && ph.vaddr + ph.memsz + (PAGE_SIZE - 1) < U64
  }

  /** Both tables are inside the file and every loadable segment fits; `stride` is the distance between
      two program headers. */
  ghost predicate WellFormed(img: seq<Byte>, stride: nat) {
    && EHDR_SIZE <= |img| && HasMagic(img, 0)
    && (forall i: nat :: i < Phnum(img, 0) ==> HeaderPos(img, stride, i) + PHDR_SIZE <= |img|)
    && (forall i: nat :: i < Phnum(img, 0) && Header(img, stride, i).loadable ==>
          SegmentFits(img, Header(img, stride, i)))
  }

  function Header(img: seq<Byte>, stride: nat, i: nat): Phdr
    requires EHDR_SIZE <= |img| && HeaderPos(img, stride, i) + PHDR_SIZE <= |img|
  {
    PhdrAt(img, HeaderPos(img, stride, i))
  }

  /** No program header has type 1. */
  predicate NoLoadHeaders(img: seq<Byte>, stride: nat)
    requires EHDR_SIZE <= |img|
  {
    forall i: nat :: i < Phnum(img, 0) ==>
      HeaderPos(img, stride, i) + PHDR_SIZE <= |img| && Field(img, HeaderPos(img, stride, i), 4) != 1
  }

  lemma NoLoadHeader(img: seq<Byte>, stride: nat, i: nat)
    requires EHDR_SIZE <= |img| && NoLoadHeaders(img, stride) && i < Phnum(img, 0)
    ensures HeaderPos(img, stride, i) + PHDR_SIZE <= |img| && !Header(img, stride, i).loadable
  {
  }

  /** The pages of a segment, before relocation: from `FirstPage` up to `EndPage`. */
  function FirstPage(ph: Phdr): nat { Page(ph.vaddr) }
  function EndPage(ph: Phdr): nat { Page(RoundUp(ph.vaddr + ph.memsz)) }

  ghost predicate PageDisjoint(img: seq<Byte>, stride: nat)
    requires WellFormed(img, stride)
  {
    forall i: nat, j: nat :: i < j < Phnum(img, 0) ==>
      var a, b := Header(img, stride, i), Header(img, stride, j);
      a.loadable && b.loadable ==> EndPage(a) <= FirstPage(b) || EndPage(b) <= FirstPage(a)
  }

  /** `v - off` in 64-bit arithmetic. */
  function Relocate(v: nat, off: nat): (r: nat)
    requires v < U64 && off < U64
    ensures r < U64
  {
    if off <= v then v - off else v + U64 - off
  }

  /** The unrelocated page of which `p` is the relocated one. */
  function SourcePage(p: nat, off: nat): nat {
    var o := Page(off);
    if p + o < PAGES then p + o else p + o - PAGES
  }

  /** Page `p` belongs to the relocated segment. */
  predicate InPages(ph: Phdr, off: nat, p: nat) {
    p < PAGES && FirstPage(ph) <= SourcePage(p, off) < EndPage(ph)
  }

  /** What the segment's byte number `k` has to be. */
  function Expected(img: seq<Byte>, ph: Phdr, k: nat): Byte
    requires SegmentFits(img, ph) && k < ph.memsz
  {
    if k < ph.filesz then img[ph.offset + k] else 0
  }

  /** Reading the segment's byte number `k` at its relocated address gives the expected byte. */
  ghost predicate ByteAt(s: Space, img: seq<Byte>, ph: Phdr, off: nat, k: nat)
    requires s.Sound() && SegmentFits(img, ph) && off < U64 && k < ph.memsz
  {
    var u := Relocate(ph.vaddr + k, off);
    s.Backed(Page(u)) && s.At(u) == Expected(img, ph, k)
  }

  /** Reading the relocated segment through the page table gives the file's bytes, then zeros. */
  ghost predicate SegmentAt(s: Space, img: seq<Byte>, ph: Phdr, off: nat)
    requires s.Sound() && SegmentFits(img, ph) && off < U64
  {
    forall k: nat :: k < ph.memsz ==> ByteAt(s, img, ph, off, k)
  }

  /** Every loadable segment among the first `n` is in memory. */
  ghost predicate ImageAt(s: Space, img: seq<Byte>, stride: nat, off: nat, n: nat)
    requires s.Sound() && WellFormed(img, stride) && n <= Phnum(img, 0) && off < U64
  {
    forall i: nat :: i < n && Header(img, stride, i).loadable ==> SegmentAt(s, img, Header(img, stride, i), off)
  }

  lemma RelocatePage(v: nat, off: nat)
    requires v < U64 && off < U64 && off % PAGE_SIZE == 0
    ensures Page(Relocate(v, off)) < PAGES && SourcePage(Page(Relocate(v, off)), off) == Page(v)
    ensures Offset(Relocate(v, off)) == Offset(v)
  {
    PageSplit(v);
    PageSplit(off);
    var q := Page(v) - Page(off);
    if off <= v {
      assert Relocate(v, off) == q * PAGE_SIZE + Offset(v);
    } else {
      assert Relocate(v, off) == (q + PAGES) * PAGE_SIZE + Offset(v);
    }
  }

  lemma SourcePageInjective(p: nat, q: nat, off: nat)
    requires p < PAGES && q < PAGES && off < U64 && SourcePage(p, off) == SourcePage(q, off)
    ensures p == q
  {
  }

  lemma PageOfByte(ph: Phdr, k: nat)
    requires k < ph.memsz
    ensures FirstPage(ph) <= Page(ph.vaddr + k) < EndPage(ph)
  {
  }
}
