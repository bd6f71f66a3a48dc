/** The drivers that the repository builds: both are linked at 0x800000, and `init.rc` names both. */
module DriverImages {
  import opened Collections
  import opened Frames
  import opened Memory
  import opened Kernel
  import opened Marshal
  import Elf
  import ElfWriter
  import Fnv
  import Tar
  import Unicode
  import UserLoader

  /** The address in the drivers' linker scripts. */
  const LINKED_AT: nat := 0x80_0000

  const TEXT := Elf.Phdr(true, 120, LINKED_AT, 1, 1)

  /** An ELF file with one byte of text there. */
  function DriverFile(b: Byte): seq<Byte> {
    ElfWriter.File(LINKED_AT, [ElfWriter.Loading(120, LINKED_AT, 1, 1)], [b])
  }

  /** What the proofs need to know of it. */
  ghost predicate IsDriver(img: seq<Byte>, b: Byte) {
    && |img| == 121 && img[120] == b && Elf.HasMagic(img, 0) && Elf.WellFormed(img, Elf.PHDR_SIZE)
    && Elf.Phnum(img, 0) == 1 && Elf.Header(img, Elf.PHDR_SIZE, 0) == TEXT && Elf.EntryPoint(img, 0) == LINKED_AT
  }

  lemma DriverFileIs(b: Byte)
    ensures IsDriver(DriverFile(b), b)
  {
    hide ElfWriter.File, Elf.WellFormed, Elf.Header, Elf.Phnum, Elf.EntryPoint, Elf.HasMagic, Elf.Phentsize;
    var img := DriverFile(b);
    ElfWriter.FileReadBack(LINKED_AT, [ElfWriter.Loading(120, LINKED_AT, 1, 1)], [b]);
    assert img[120..] == [b];
    ElfWriter.FileWellFormed(LINKED_AT, [ElfWriter.Loading(120, LINKED_AT, 1, 1)], [b]);
  }

  /** It occupies the one address, and puts its byte there. */
  lemma DriverPuts(img: seq<Byte>, b: Byte)
    requires IsDriver(img, b)
    ensures GoodElf(img) && UserLoader.Around(img, 0, LINKED_AT) && UserLoader.ByteOf(img, 0, LINKED_AT) == b
    ensures Occupied(img) == iset{LINKED_AT} && PutBy(img, LINKED_AT) == Some(b)
  {
    hide Elf.WellFormed, Elf.Header, Elf.Phnum, Elf.EntryPoint, Elf.HasMagic, UserLoader.FinalByte;
    assert forall u: nat :: UserLoader.OutsideSegments(img, 1, u) <==> u != LINKED_AT;
    assert UserLoader.Around(img, 0, LINKED_AT);
    UserLoader.FinalByteExists(img, 1, LINKED_AT, 0);
    var j := UserLoader.FinalByteFrom(img, 1, LINKED_AT);
  }

  /** The address is free for a driver: off the archive, and unmapped or ordinary memory. */
  ghost predicate FreeFor(s: Space, at: nat, archive: seq<Byte>) {
    LINKED_AT !in Region(at, |archive|) && UserLoader.PlainTarget(s, TEXT)
  }

  lemma OffHeap()
    ensures LINKED_AT !in Region(HEAP_START, HEAP_PAGES * PAGE_SIZE)
  {
  }

  lemma DriverIsGood(s: Space, at: nat, archive: seq<Byte>, d: Tar.Object, b: Byte)
    requires d.from <= d.to <= |archive| && IsDriver(Data(archive, d), b) && FreeFor(s, at, archive)
    ensures GoodDriver(s, at, archive, d)
  {
    hide Elf.WellFormed, Elf.Header, Elf.Phnum, Elf.EntryPoint, Elf.HasMagic, Occupied, Data, Region, UserLoader.PlainTarget,
         UserLoader.ByteOf, UserLoader.Around, PutBy;
    DriverPuts(Data(archive, d), b);
    OffHeap();
  }

  /** Two drivers. */
  ghost predicate Pair(archive: seq<Byte>, drivers: seq<Tar.Object>, a: Byte, b: Byte) {
    && |drivers| == 2 && drivers[0].from <= drivers[0].to <= |archive| && drivers[1].from <= drivers[1].to <= |archive|
    && IsDriver(Data(archive, drivers[0]), a) && IsDriver(Data(archive, drivers[1]), b)
  }

  /** They meet the conditions of marshal's start. */
  lemma PairIsGood(s: Space, at: nat, archive: seq<Byte>, drivers: seq<Tar.Object>, a: Byte, b: Byte)
    requires Pair(archive, drivers, a, b) && FreeFor(s, at, archive)
    ensures GoodDrivers(s, at, archive, drivers)
  {
    hide IsDriver, Data, FreeFor, GoodDriver;
    DriverIsGood(s, at, archive, drivers[0], a);
    DriverIsGood(s, at, archive, drivers[1], b);
  }

  /** If they are different, they do not agree. */
  lemma PairDisagrees(archive: seq<Byte>, drivers: seq<Tar.Object>, a: Byte, b: Byte)
    requires Pair(archive, drivers, a, b) && a != b
    ensures !AllAgree(archive, drivers)
  {
    hide IsDriver, Data, AllAgree, UserLoader.Agree, UserLoader.Around, UserLoader.ByteOf, Occupied, PutBy, Elf.WellFormed,
         Elf.Phnum,
         Elf.HasMagic;
    OneSegment(Data(archive, drivers[0]), a);
    OneSegment(Data(archive, drivers[1]), b);
    DriverPuts(Data(archive, drivers[0]), a);
    DriverPuts(Data(archive, drivers[1]), b);
    if AllAgree(archive, drivers) {
      PairAt(archive, drivers, 0, 1);
      UserLoader.AgreeAt(Data(archive, drivers[0]), Data(archive, drivers[1]), 0, 0, LINKED_AT);
      assert false;
    }
  }

  lemma OneSegment(img: seq<Byte>, b: Byte)
    requires IsDriver(img, b)
    ensures Elf.EHDR_SIZE <= |img| && Elf.Phnum(img, 0) == 1 && IsElf(img)
  {
  }

  /** The address shows the byte. */
  ghost predicate Shows(t: Space, b: Byte) {
    t.Sound() && t.Seen(Page(LINKED_AT)) && t.At(LINKED_AT) == b
  }

  /** After every start of the two, the address shows the second one's byte, and the first one is lost. */
  lemma FirstDriverLost(t: Space, archive: seq<Byte>, drivers: seq<Tar.Object>, a: Byte, b: Byte)
    requires Pair(archive, drivers, a, b) && a != b && LaidAtEnd(t, archive, drivers)
    ensures Shows(t, b) && !ImageIn(t, Data(archive, drivers[0]))
  {
    hide IsDriver, Data, Occupied, PutBy, Page, ImageIn, Region, UserLoader.Around, UserLoader.ByteOf, GoodElf;
    DriverPuts(Data(archive, drivers[1]), b);
    LastPuts(archive, drivers, LINKED_AT, b);
    OffDeep();
    assert EndHeld(t, archive, drivers, LINKED_AT);
    NotInMemory(t, Data(archive, drivers[0]), a);
  }

  lemma LastPuts(archive: seq<Byte>, drivers: seq<Tar.Object>, u: nat, b: Byte)
    requires |drivers| == 2 && PutBy(Data(archive, drivers[1]), u) == Some(b)
    ensures Final(archive, drivers, u) == Some(b)
  {
    hide PutBy, Data;
  }

  lemma OffDeep()
    ensures LINKED_AT !in Region(DEEP_BASE, DEEP_PAGES * PAGE_SIZE)
  {
  }

  /** A memory with another byte there does not hold the driver. */
  lemma NotInMemory(t: Space, img: seq<Byte>, a: Byte)
    requires IsDriver(img, a) && t.Sound() && t.Seen(Page(LINKED_AT)) && t.At(LINKED_AT) != a
    ensures !ImageIn(t, img)
  {
    hide Elf.WellFormed, Elf.Header, Elf.Phnum, Elf.EntryPoint, Elf.HasMagic, UserLoader.Around, UserLoader.ByteOf,
         Elf.ImageAt,
         Occupied, PutBy, Page;
    DriverPuts(img, a);
    if ImageIn(t, img) {
      UserLoader.ImageByte(t, img, 0, LINKED_AT);
      assert false;
    }
  }

  // ---- The archive of the repository ----

  const GPU_DRIVER: Text := [0x67, 0x70, 0x75, 0x5F, 0x64, 0x72, 0x69, 0x76, 0x65, 0x72]
  const PS2_HID: Text := [0x70, 0x73, 0x32, 0x5F, 0x68, 0x69, 0x64]

  /** The archive with the two drivers and the configuration that names them. */
  ghost predicate Shipped(gpu: Tar.File, ps2: Tar.File, rc: Tar.File, split: Splitter) {
    && Tar.Archivable(gpu) && Tar.Archivable(ps2) && Tar.Archivable(rc)
    && gpu.name == GPU_DRIVER && ps2.name == PS2_HID && rc.name == INIT_RC
    && Unicode.Utf8(rc.data) && split(rc.data) == [DRIVER + GPU_DRIVER, DRIVER + PS2_HID]
  }

  /** The archive consists of these files. */
  ghost predicate Contains(archive: seq<Byte>, files: seq<Tar.File>) {
    var m := Tar.Members(archive, 0);
    |m| == |files| && forall i :: 0 <= i < |files| ==> Tar.IsFile(archive, m[i], files[i])
  }

  /** An archive that was written from files consists of them. */
  lemma WrittenContains(files: seq<Tar.File>, trailer: seq<Byte>)
    requires (forall f :: f in files ==> Tar.Archivable(f)) && (|trailer| < Tar.BLOCK || trailer[0] == 0)
    ensures Contains(Tar.Encode(files) + trailer, files)
  {
    hide Tar.Members, Tar.Encode, Tar.Archivable, Tar.IsFile;
    Tar.ParseInvertsEncode([], files, trailer);
    assert [] + Tar.Encode(files) + trailer == Tar.Encode(files) + trailer;
  }

  /** Marshal finds exactly the two drivers, in this order. */
  lemma ShippedDrivers(archive: seq<Byte>, gpu: Tar.File, ps2: Tar.File, rc: Tar.File, split: Splitter)
    requires Shipped(gpu, ps2, rc, split) && Contains(archive, [gpu, ps2, rc])
    ensures var drivers := DriversOf(archive, split);
            |drivers| == 2 && Tar.IsFile(archive, drivers[0], gpu) && Tar.IsFile(archive, drivers[1], ps2)
  {
    hide Tar.Members, Tar.Archivable, Unicode.Utf8, Fnv.Hash, Drivers, Lines;
    var files, m := [gpu, ps2, rc], Tar.Members(archive, 0);
    assert m == [m[0], m[1], m[2]];
    assert Tar.IsFile(archive, m[0], files[0]) && Tar.IsFile(archive, m[1], files[1]) && Tar.IsFile(archive, m[2], files[2]);
    NamesDiffer();
    LinesOfThree(archive, m[0], m[1], m[2], split);
    DriversOfThree(m[0], m[1], m[2]);
  }

  lemma NamesDiffer()
    ensures GPU_DRIVER != INIT_RC && PS2_HID != INIT_RC && GPU_DRIVER != PS2_HID
  {
    assert PS2_HID[0] != INIT_RC[0] && |GPU_DRIVER| != |PS2_HID| && |GPU_DRIVER| != |INIT_RC|;
  }

  lemma LinesOfThree(archive: seq<Byte>, x: Tar.Object, y: Tar.Object, z: Tar.Object, split: Splitter)
    requires x.name != INIT_RC && y.name != INIT_RC && z.name == INIT_RC && Unicode.Utf8(Data(archive, z))
    ensures Lines(archive, [x, y, z], split) == split(Data(archive, z))
  {
    hide Unicode.Utf8, Data;
    assert [x, y, z][..2] == [x, y] && [x, y][..1] == [x] && [x][..0] == [];
    assert Lines(archive, [], split) == [];
    assert Lines(archive, [x], split) == [];
    assert Lines(archive, [x, y], split) == [];
  }

  lemma MatchingOfThree(x: Tar.Object, y: Tar.Object, z: Tar.Object, name: Text)
    ensures Matching([x, y, z], name) ==
            (if x.name == name then [x] else []) + (if y.name == name then [y] else []) + (if z.name == name then [z] else [])
  {
    assert [x, y, z][..2] == [x, y] && [x, y][..1] == [x] && [x][..0] == [];
    assert Matching([], name) == [];
    assert Matching([x], name) == if x.name == name then [x] else [];
    assert Matching([x, y], name) == (if x.name == name then [x] else []) + (if y.name == name then [y] else []);
  }

  lemma DriversOfThree(x: Tar.Object, y: Tar.Object, z: Tar.Object)
    requires x.name == GPU_DRIVER && y.name == PS2_HID && z.name == INIT_RC
    ensures Drivers([x, y, z], [DRIVER + GPU_DRIVER, DRIVER + PS2_HID]) == [x, y]
  {
    hide Matching;
    var objects, a, b := [x, y, z], DRIVER + GPU_DRIVER, DRIVER + PS2_HID;
    MatchingOfThree(x, y, z, GPU_DRIVER);
    MatchingOfThree(x, y, z, PS2_HID);
    assert a[7..] == GPU_DRIVER && b[7..] == PS2_HID && DRIVER <= a && DRIVER <= b;
    NamesDiffer();
    assert LineDrivers(objects, a) == [x] && LineDrivers(objects, b) == [y];
    var one, none: seq<Text> := [a], [];
    assert [a, b][..1] == one && one[..0] == none;
    assert Drivers(objects, none) == [];
    assert Drivers(objects, one) == [x];
  }

  /** In the repository's archive, with two different drivers at their linked address: marshal's start meets its conditions,
      the drivers do not agree, and after every such start the first one is lost. */
  lemma ShippedDriverLost(s: Space, t: Space, at: nat, archive: seq<Byte>, gpu: Tar.File, ps2: Tar.File, rc: Tar.File,
                          split: Splitter, a: Byte, b: Byte)
    requires Shipped(gpu, ps2, rc, split) && Contains(archive, [gpu, ps2, rc])
    requires IsDriver(gpu.data, a) && IsDriver(ps2.data, b) && a != b && FreeFor(s, at, archive)
    ensures GoodDrivers(s, at, archive, DriversOf(archive, split)) && !AllAgree(archive, DriversOf(archive, split))
    ensures LaidAtEnd(t, archive, DriversOf(archive, split)) ==> Shows(t, b) && !ImageIn(t, gpu.data)
  {
    hide DriversOf, IsDriver, Shipped, GoodDrivers, AllAgree, LaidAtEnd, ImageIn, FreeFor, Shows, Contains, Fnv.Hash;
    ShippedDrivers(archive, gpu, ps2, rc, split);
    var drivers := DriversOf(archive, split);
    assert Pair(archive, drivers, a, b);
    PairIsGood(s, at, archive, drivers, a, b);
    PairDisagrees(archive, drivers, a, b);
    if LaidAtEnd(t, archive, drivers) { FirstDriverLost(t, archive, drivers, a, b); }
  }
}
