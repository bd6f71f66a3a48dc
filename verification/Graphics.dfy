/** The `draw_rect` host function: a clipped rectangle fill in the mapped framebuffer, with the wrapping 32- and
    64-bit arithmetic of a release build. */
module Graphics {
  import opened Words
  import opened Frames
  import opened Memory
  import opened Kernel

  const FB_BASE: nat := 0xB000_0000
  const I32_LIMIT: int := 0x8000_0000

  predicate IsI32(x: int) { -0x8000_0000 <= x < 0x8000_0000 }

  /** Truncation to a signed 32-bit number. */
  function I32(x: int): (r: int)
    ensures IsI32(r) && (IsI32(x) ==> r == x)
  {
    var m := x % 0x1_0000_0000;
    if m < 0x8000_0000 then m else m - 0x1_0000_0000
  }

  /** A signed 32-bit number as an unsigned 64-bit one. */
  function AsU64(x: int): (r: nat)
    requires IsI32(x)
    ensures r < U64
  {
    if x < 0 then x + U64 else x
  }

  /** The width or height that is drawn: the code's clipping of `size` at `pos` against `limit`. */
  function Clip(pos: int, size: int, limit: nat): int
    requires IsI32(pos) && IsI32(size) && limit < U64
  {
    if (AsU64(pos) + AsU64(size)) % U64 > limit then I32((limit - AsU64(pos)) % U64) else size
  }

  /** How many rows or columns the loop over `0..Clip` visits. */
  function Extent(pos: int, size: int, limit: nat): nat
    requires IsI32(pos) && IsI32(size) && limit < U64
  {
    var n := Clip(pos, size, limit);
    if n > 0 then n else 0
  }

  /** A negative size that reaches below zero is mistaken for a huge one, and fills up to the edge. */
  predicate Overruns(pos: int, size: int, limit: nat) {
    size < 0 && pos + size < 0 && pos < limit
  }

  function Min(a: int, b: int): int { if a < b then a else b }
  function Max(a: int, b: int): int { if a < b then b else a }

  /** What the clipping amounts to, for every position that is not negative. */
  lemma ExtentExact(pos: int, size: int, limit: nat)
    requires 0 <= pos < I32_LIMIT && IsI32(size) && limit < I32_LIMIT
    ensures Extent(pos, size, limit) ==
            if Overruns(pos, size, limit) then limit - pos
            else if size < 0 then 0 else Max(0, Min(size, limit - pos))
    ensures Extent(pos, size, limit) > 0 ==> pos + Extent(pos, size, limit) <= limit
  {
    hide I32;
    var sum := pos + AsU64(size);
    if size >= 0 {
      assert sum % U64 == pos + size;
    } else if pos + size >= 0 {
      ModWrap(pos + size);
    }
    if pos <= limit {
      assert (limit - pos) % U64 == limit - pos;
      I32Small(limit - pos);
    } else {
      I32OfNegative(limit - pos);
    }
  }

  lemma ModWrap(x: int)
    requires 0 <= x < U64
    ensures (x + U64) % U64 == x
  {
  }

  lemma I32Small(x: int)
    requires IsI32(x)
    ensures I32(x) == x
  {
  }

  lemma I32OfNegative(x: int)
    requires -I32_LIMIT <= x < 0
    ensures I32(x % U64) == x
  {
    assert x % U64 == x + U64;
    assert (x + U64) % 0x1_0000_0000 == x + 0x1_0000_0000;
  }

  /** Position of a pixel in the framebuffer. */
  function Index(w: nat, px: nat, py: nat): nat {
    py * w + px
  }

  lemma IndexBound(w: nat, h: nat, px: nat, py: nat)
    requires px < w && py < h
    ensures Index(w, px, py) < w * h
  {
    MulMonotone(py + 1, h, w);
  }

  lemma IndexInjective(w: nat, px: nat, py: nat, qx: nat, qy: nat)
    requires px < w && qx < w && Index(w, px, py) == Index(w, qx, qy)
    ensures px == qx && py == qy
  {
    DivModUnique(Index(w, px, py), w, py, px);
    DivModUnique(Index(w, qx, qy), w, qy, qx);
  }

  predicate InRect(x: int, y: int, w: int, h: int, px: nat, py: nat) {
    x <= px < x + w && y <= py < y + h
  }

  /** A pixel word. */
  type Colour = c: int | 0 <= c < 0x1_0000_0000

  class Screen {
    /** False until a framebuffer was mapped. */
    const present: bool
    const width: nat
    const height: nat
    const pixels: array<Colour>

    ghost predicate Valid()
      reads this
    {
      width < 0x4000_0000 && height < 0x8000_0000 && pixels.Length == width * height
    }

    constructor (present: bool, w: nat, h: nat)
      requires w < 0x4000_0000 && h < 0x8000_0000
      ensures Valid() && this.present == present && width == w && height == h && fresh(pixels)
    {
      this.present, width, height := present, w, h;
      pixels := new Colour[w * h];
    }

    function At(px: nat, py: nat): Colour
      requires Valid() && px < width && py < height
      reads this, pixels
    {
      IndexBound(width, height, px, py);
      pixels[Index(width, px, py)]
    }

    /** One store of the inner loop, at the offset the code computes. */
    method Put(x: int, y: int, row: nat, col: nat, c: Colour)
      requires Valid() && 0 <= x && 0 <= y && x + col < width && y + row < height
      modifies pixels
      ensures forall px: nat, py: nat :: px < width && py < height ==>
        At(px, py) == if px == x + col && py == y + row then c else old(At(px, py))
    {
      var offset := (AsU64(I32(y + row)) * width + AsU64(I32(x + col))) % U64;
      IndexBound(width, height, x + col, y + row);
      OffsetFits(width, height);
      assert offset == Index(width, x + col, y + row);
      pixels[offset] := c;
      forall px: nat, py: nat | px < width && py < height
        ensures At(px, py) == if px == x + col && py == y + row then c else old(At(px, py))
      {
        IndexBound(width, height, px, py);
        if Index(width, px, py) == offset { IndexInjective(width, px, py, x + col, y + row); }
      }
    }

    /** Exactly the pixels in the clipped extents are set, whatever the arguments; nothing is drawn at a negative position. */
    method DrawRect(x: int, y: int, w: int, h: int, c: Colour)
      requires Valid() && IsI32(x) && IsI32(y) && IsI32(w) && IsI32(h)
      modifies pixels
      ensures forall px: nat, py: nat :: px < width && py < height ==>
        At(px, py) == if present && Draws(x, y, w, h, width, height, px, py) then c else old(At(px, py))
    {
      hide Extent, Index;
      if !present || x < 0 || y < 0 {
        return;
      }
      var drawW, drawH := Clip(x, w, width), Clip(y, h, height);
      ghost var ew, eh := Extent(x, w, width), Extent(y, h, height);
      ExtentExact(x, w, width);
      ExtentExact(y, h, height);
      ExtentOfClip(x, w, width);
      ExtentOfClip(y, h, height);
      var row := 0;
      while row < drawH
        invariant 0 <= row <= eh
        invariant forall px: nat, py: nat :: px < width && py < height ==>
          At(px, py) == if InRect(x, y, ew, row, px, py) then c else old(At(px, py))
      {
        var col := 0;
        while col < drawW
          invariant 0 <= col <= ew && row < eh
          invariant forall px: nat, py: nat :: px < width && py < height ==>
            At(px, py) == if InRect(x, y, ew, row, px, py) || (py == y + row && x <= px < x + col) then c else old(At(px, py))
        {
          Put(x, y, row, col, c);
          col := col + 1;
        }
        row := row + 1;
      }
    }
  }

  lemma ExtentOfClip(pos: int, size: int, limit: nat)
    requires IsI32(pos) && IsI32(size) && limit < U64
    ensures Extent(pos, size, limit) == if Clip(pos, size, limit) > 0 then Clip(pos, size, limit) else 0
  {
  }

  lemma OffsetFits(w: nat, h: nat)
    requires w < 0x4000_0000 && h < 0x8000_0000
    ensures w * h < U64
  {
    MulMonotone(w, 0x4000_0000, h);
  }

  lemma MulMonotone(a: nat, b: nat, c: nat)
    requires a <= b
    ensures a * c <= b * c
  {
    assert (b - a) * c >= 0;
  }

  /** The call sets this pixel of a `width` by `height` screen. */
  predicate Draws(x: int, y: int, w: int, h: int, width: nat, height: nat, px: nat, py: nat)
    requires IsI32(x) && IsI32(y) && IsI32(w) && IsI32(h) && width < I32_LIMIT && height < I32_LIMIT
  {
    0 <= x && 0 <= y && InRect(x, y, Extent(x, w, width), Extent(y, h, height), px, py)
  }

  /** On this axis the rectangle meets the screen. */
  predicate Meets(pos: int, size: int, limit: nat) {
    size > 0 && 0 < limit && pos < limit && pos + size > 0
  }

  /** On this axis something is drawn at a position that is not negative. */
  predicate Fills(pos: int, size: int, limit: nat) {
    pos < limit && (size > 0 || pos + size < 0)
  }

  /** Arguments for which the pixels set are not the rectangle cut down to the screen: at a negative position the
      rectangle is skipped although it meets the screen, and a negative size that reaches below zero fills up to the
      edge. */
  predicate Misdrawn(x: int, y: int, w: int, h: int, width: nat, height: nat) {
    if x < 0 || y < 0 then Meets(x, w, width) && Meets(y, h, height)
    else (Overruns(x, w, width) && Fills(y, h, height)) || (Overruns(y, h, height) && Fills(x, w, width))
  }

  /** For all 32-bit arguments, the pixels set are the rectangle cut down to the screen if and only if the arguments are
      not of the two bad kinds. */
  lemma ExactClippingIff(x: int, y: int, w: int, h: int, width: nat, height: nat)
    requires IsI32(x) && IsI32(y) && IsI32(w) && IsI32(h) && width < I32_LIMIT && height < I32_LIMIT
    ensures (forall px: nat, py: nat :: px < width && py < height ==>
               (Draws(x, y, w, h, width, height, px, py) <==> InRect(x, y, w, h, px, py)))
            <==> !Misdrawn(x, y, w, h, width, height)
  {
    hide Extent;
    if x < 0 || y < 0 {
      if Meets(x, w, width) && Meets(y, h, height) {
        var px, py := Max(x, 0), Max(y, 0);
        assert InRect(x, y, w, h, px, py) && !Draws(x, y, w, h, width, height, px, py);
      }
    } else {
      ExtentExact(x, w, width);
      ExtentExact(y, h, height);
      if Misdrawn(x, y, w, h, width, height) {
        assert Draws(x, y, w, h, width, height, x, y) && !InRect(x, y, w, h, x, y);
      }
    }
  }

  /** One input of each kind, on every screen that is large enough. */
  lemma MisdrawnInputs(width: nat, height: nat)
    requires 7 <= width < I32_LIMIT && 10 <= height < I32_LIMIT
    ensures !Draws(-3, 0, 10, 10, width, height, 2, 2) && InRect(-3, 0, 10, 10, 2, 2)
    ensures Draws(3, 0, -5, 10, width, height, 6, 2) && !InRect(3, 0, -5, 10, 6, 2)
    ensures Misdrawn(-3, 0, 10, 10, width, height) && Misdrawn(3, 0, -5, 10, width, height)
  {
    hide Extent;
    ExtentExact(3, -5, width);
    ExtentExact(0, 10, height);
  }

  /** Number of pages the `SYS_MAP_FRAMEBUFFER` loop visits. */
  function FbPages(height: nat, pitch: nat): nat {
    (height * pitch + 4095) / 4096
  }

  /** Every byte of every pixel lies in a page that the mapping loop visits, and all of these are below the user limit,
      once the kernel accepted the framebuffer's size. */
  lemma PixelsAreMapped(height: nat, pitch: nat, px: nat, py: nat, k: nat)
    requires IsSafeUserPtr(FB_BASE, height * pitch)
    requires px < pitch / 4 && py < height && k < 4
    ensures var v := FB_BASE + 4 * Index(pitch / 4, px, py) + k;
            var i := Page(v) - Page(FB_BASE);
            0 <= i < FbPages(height, pitch) && Page(FB_BASE + i * PAGE_SIZE) == Page(v) && v < USER_LIMIT
    ensures forall i: nat :: i < FbPages(height, pitch) ==> FB_BASE + i * PAGE_SIZE < USER_LIMIT
  {
    var w, size := pitch / 4, height * pitch;
    IndexBound(w, height, px, py);
    RowsFit(w, height, pitch);
    SizeFits(size);
  }

  lemma RowsFit(w: nat, height: nat, pitch: nat)
    requires 4 * w <= pitch
    ensures 4 * (w * height) <= height * pitch
  {
    MulMonotone(4 * w, pitch, height);
  }

  lemma SizeFits(size: nat)
    requires IsSafeUserPtr(FB_BASE, size)
    ensures FB_BASE + size < USER_LIMIT
  {
  }

  /** Byte `b` of a pixel leads to the device's byte at that offset behind its first page. */
  ghost predicate PixelMapped(table: map<nat, nat>, phys: nat, pitch: nat, px: nat, py: nat, b: nat) {
    var o := 4 * Index(pitch / 4, px, py) + b;
    Page(0xB000_0000 + o) in table && table[Page(0xB000_0000 + o)] + Offset(0xB000_0000 + o) == FrameBase(phys) + o
  }

  /** No page of the framebuffer's place is mapped. */
  ghost predicate FbFree(table: map<nat, nat>, height: nat, pitch: nat) {
    forall i: nat :: i < FbPages(height, pitch) ==> DevicePage(FB_BASE, i) !in table
  }

  /** The device's frames. */
  ghost predicate FbDevice(devices: set<nat>, phys: nat, height: nat, pitch: nat) {
    forall i: nat :: i < FbPages(height, pitch) ==> FrameBase(phys + i * PAGE_SIZE) in devices
  }

  /** The size fits in 64 bits, but not below the user limit. */
  predicate FbRefused(height: nat, pitch: nat) {
    height * pitch < U64 && !IsSafeUserPtr(FB_BASE, height * pitch)
  }

  predicate BeyondPhys(phys: nat, i: nat) {
    phys + i * 4096 >= 0x10_0000_0000_0000
  }

  /** What stops the system: a size that does not fit in 64 bits, or a device page beyond the physical address space. */
  ghost predicate FbPanics(phys: nat, height: nat, pitch: nat) {
    height * pitch >= U64 ||
    (!FbRefused(height, pitch) && exists i: nat :: i < FbPages(height, pitch) && BeyondPhys(phys, i))
  }

  lemma FbPagesAreGood(phys: nat, height: nat, pitch: nat, i: nat)
    requires IsSafeUserPtr(FB_BASE, height * pitch) && i < FbPages(height, pitch)
    ensures BadPage(phys, FB_BASE, i) <==> BeyondPhys(phys, i)
  {
    var n := height * pitch;
    assert i * 4096 <= n;
  }

  /** Every byte of every pixel leads to its byte of the device. */
  ghost predicate FbInPlace(table: map<nat, nat>, phys: nat, height: nat, pitch: nat) {
    forall px: nat, py: nat, b: nat :: px < pitch / 4 && py < height && b < 4 ==> PixelMapped(table, phys, pitch, px, py, b)
  }

  datatype FbResult = Rejected | FbMapped | FbHalted

  /** `SYS_MAP_FRAMEBUFFER` at marshal's address. After a mapping without page-table error, of pages that were not mapped
      before, every byte of every pixel leads to its byte of the device. */
  method MapFramebuffer(k: Kernel, phys: nat, height: nat, pitch: nat) returns (r: FbResult)
    requires k.Valid() && FbDevice(k.devices, phys, height, pitch)
    modifies k`table, k`ram, k`roles, k`mapErrors, k.allocator
    ensures k.Valid() && Preserves(old(k.S()), k.S()) && k.mapErrors >= old(k.mapErrors)
    ensures r.Rejected? <==> FbRefused(height, pitch)
    ensures r.FbHalted? <==> FbPanics(phys, height, pitch)
    ensures r.Rejected? ==> k.table == old(k.table)
    ensures forall p :: p in k.table && p !in old(k.table) ==> Page(FB_BASE) <= p < Page(FB_BASE) + FbPages(height, pitch)
    ensures r.FbMapped? && k.mapErrors == old(k.mapErrors) && FbFree(old(k.table), height, pitch) ==>
      FbInPlace(k.table, phys, height, pitch)
  {
    hide OneRole, AllFrames, NoOverflow, CursorAt, Preserves, IsSafeUserPtr, FbPages, PixelMapped, BadPage;
    PreservesReflexive(k.S(), k.allocator.handed, k.roles);
    if height * pitch >= U64 {
      return FbHalted;
    }
    if !IsSafeUserPtr(FB_BASE, height * pitch) {
      return Rejected;
    }
    var o := k.MapDevice(phys, FB_BASE, FbPages(height, pitch));
    forall i: nat | i < FbPages(height, pitch) ensures BadPage(phys, FB_BASE, i) <==> BeyondPhys(phys, i) {
      FbPagesAreGood(phys, height, pitch, i);
    }
    if !o.Done? {
      return FbHalted;
    }
    if k.mapErrors == old(k.mapErrors) && FbFree(old(k.table), height, pitch) {
      forall px: nat, py: nat, b: nat | px < pitch / 4 && py < height && b < 4
        ensures PixelMapped(k.table, phys, pitch, px, py, b)
      {
        PixelLeadsToDevice(old(k.table), k.table, phys, height, pitch, px, py, b);
      }
    }
    return FbMapped;
  }

  lemma PixelLeadsToDevice(before: map<nat, nat>, table: map<nat, nat>, phys: nat, height: nat, pitch: nat, px: nat, py: nat, b: nat)
    requires IsSafeUserPtr(FB_BASE, height * pitch) && px < pitch / 4 && py < height && b < 4
    requires forall i: nat :: i < FbPages(height, pitch) ==> DevicePage(FB_BASE, i) in table && DevicePage(FB_BASE, i) !in before
    requires forall p :: p in table && p !in before ==>
      Page(FB_BASE) <= p && table[p] == FrameBase(phys + (p - Page(FB_BASE)) * PAGE_SIZE)
    ensures PixelMapped(table, phys, pitch, px, py, b)
  {
    hide IsSafeUserPtr, Index, FbPages;
    PixelsAreMapped(height, pitch, px, py, b);
    var v := FB_BASE + (4 * Index(pitch / 4, px, py) + b);
    var i := Page(v) - Page(FB_BASE);
    DevicePageStep(FB_BASE, i);
    FrameBaseStep(phys, i);
    PageSplit(v);
  }

  lemma FrameBaseStep(phys: nat, i: nat)
    ensures FrameBase(phys + i * PAGE_SIZE) == FrameBase(phys) + i * PAGE_SIZE
  {
  }

  /** The driver's pixel offset is the one of the device's scan lines exactly in the first line, or if the lines have a whole
      number of pixels. */
  lemma ScanLineIff(pitch: nat, px: nat, py: nat)
    ensures 4 * Index(pitch / 4, px, py) == py * pitch + 4 * px <==> py == 0 || pitch % 4 == 0
  {
    var w, rest := pitch / 4, pitch % 4;
    assert py * pitch == py * (4 * w) + py * rest;
    assert py * (4 * w) == 4 * (py * w);
    if py > 0 && rest > 0 { assert py * rest > 0; }
  }

  /** The metadata word of the system call, and what marshal reads back from it. */
  function Meta(pitch: bv64, height: bv64): bv64 { (pitch << 32) | height }

  lemma MetaRoundTrip(pitch: bv64, height: bv64)
    requires pitch < 0x1_0000_0000 && height < 0x1_0000_0000
    ensures Meta(pitch, height) >> 32 == pitch && Meta(pitch, height) & 0xFFFF_FFFF == height
  {
  }
}
