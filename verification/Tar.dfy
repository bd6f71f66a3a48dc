/** The reader of USTAR archives (POSIX.1-2017, pax, "ustar Interchange Format"). */
module Tar {
  import opened Collections
  import opened Memory
  import opened Fnv
  import opened Unicode

  const BLOCK: nat := 512
  const NAME_SIZE: nat := 100
  const SIZE_AT: nat := 124
  const SIZE_LEN: nat := 11
  const UNKNOWN: seq<Byte> := [0x55, 0x4E, 0x4B, 0x4E, 0x4F, 0x57, 0x4E]

  /** A member of the archive; its data is the slice from `from` to `to`. */
  datatype Object = Object(id: nat, name: seq<Byte>, from: nat, to: nat)

  /** Length of the name field up to its first NUL. */
  function NameLength(field: seq<Byte>): (n: nat)
    ensures n <= |field| && (n < |field| ==> field[n] == 0)
    ensures forall i :: 0 <= i < n ==> field[i] != 0
  {
    if field == [] || field[0] == 0 then 0 else 1 + NameLength(field[1..])
  }

  function NameOf(field: seq<Byte>): seq<Byte> {
    var name := field[..NameLength(field)];
    if Utf8(name) then name else UNKNOWN
  }

  lemma UnknownName(field: seq<Byte>)
    requires !exists text: seq<Scalar> :: EncodeText(text) == field[..NameLength(field)]
    ensures NameOf(field) == Ascii("UNKNOWN")
  {
    Utf8Iff(field[..NameLength(field)]);
  }

  /** The octal number in a field; other characters are skipped. */
  function Octal(field: seq<Byte>): nat {
    if field == [] then 0 else
      var before, b := Octal(field[..|field| - 1]), field[|field| - 1];
      if 0x30 <= b <= 0x37 then before * 8 + (b - 0x30) else before
  }

  function SizeAt(a: seq<Byte>, off: nat): nat
    requires off + BLOCK <= |a|
  {
    Octal(a[off + SIZE_AT..off + SIZE_AT + SIZE_LEN])
  }

  function Padded(size: nat): (p: nat)
    ensures size <= p < size + BLOCK && p % BLOCK == 0
  {
    (size + 511) / 512 * 512
  }

  /** A header is read at `off`. */
  predicate HeaderAt(a: seq<Byte>, off: nat) {
    off + BLOCK <= |a| && a[off] != 0
  }

  function NextOffset(a: seq<Byte>, off: nat): (n: nat)
    requires HeaderAt(a, off)
    ensures n >= off + BLOCK
  {
    off + BLOCK + Padded(SizeAt(a, off))
  }

  predicate Truncated(a: seq<Byte>, off: nat)
    requires HeaderAt(a, off)
  {
    off + BLOCK + SizeAt(a, off) > |a|
  }

  function ObjectAt(a: seq<Byte>, off: nat): Object
    requires HeaderAt(a, off)
  {
    var name := NameOf(a[off..off + NAME_SIZE]);
    Object(Hash(OFFSET_BASIS, name), name, off + BLOCK, off + BLOCK + SizeAt(a, off))
  }

  /** The positions of the headers that are read, from `off` on. */
  function Headers(a: seq<Byte>, off: nat): seq<nat>
    decreases |a| - off
  {
    if !HeaderAt(a, off) then [] else [off] + Headers(a, NextOffset(a, off))
  }

  /** The members read from `off` on. */
  function Members(a: seq<Byte>, off: nat): seq<Object>
    decreases |a| - off
  {
    if !HeaderAt(a, off) then []
    else (if Truncated(a, off) then [] else [ObjectAt(a, off)]) + Members(a, NextOffset(a, off))
  }

  method ReadName(nameBytes: seq<Byte>) returns (name: seq<Byte>)
    requires |nameBytes| == NAME_SIZE
    ensures name == NameOf(nameBytes)
  {
    hide Utf8;
    var nameLen := 0;
    while nameLen < 100 && nameBytes[nameLen] != 0
      invariant nameLen <= 100 && NameLength(nameBytes) == nameLen + NameLength(nameBytes[nameLen..])
    {
      nameLen := nameLen + 1;
    }
    name := nameBytes[..nameLen];
    if !Utf8(name) {
      name := UNKNOWN;
    }
  }

  method ReadSize(sizeBytes: seq<Byte>) returns (size: nat)
    ensures size == Octal(sizeBytes)
  {
    size := 0;
    for i := 0 to |sizeBytes|
      invariant size == Octal(sizeBytes[..i])
    {
      assert sizeBytes[..i + 1][..i] == sizeBytes[..i];
      var b := sizeBytes[i];
      if b >= 0x30 && b <= 0x37 {
        size := size * 8 + (b - 0x30);
      }
    }
    assert sizeBytes[..|sizeBytes|] == sizeBytes;
  }

  lemma Unroll(a: seq<Byte>, off: nat, before: seq<Object>)
    ensures !HeaderAt(a, off) ==> Members(a, off) == []
    ensures HeaderAt(a, off) ==>
      before + Members(a, off) ==
      (before + if Truncated(a, off) then [] else [ObjectAt(a, off)]) + Members(a, NextOffset(a, off))
  {
    hide NameOf, Octal, Hash, Padded;
  }

  method Parse(archive: seq<Byte>) returns (objects: seq<Object>)
    ensures objects == Members(archive, 0)
  {
    hide NameOf, Octal, Hash, Padded, Members;
    objects := [];
    var offset := 0;
    while offset + 512 <= |archive|
      invariant Members(archive, 0) == objects + Members(archive, offset)
      decreases |archive| - offset
    {
      if archive[offset] == 0 {
        break;
      }
      var name := ReadName(archive[offset..offset + 100]);
      var size := ReadSize(archive[offset + 124..offset + 135]);
      var dataStart := offset + 512;
      var dataEnd := dataStart + size;
      Unroll(archive, offset, objects);
      if dataEnd <= |archive| {
        var id := GenerateObjectId(name);
        objects := objects + [Object(id, name, dataStart, dataEnd)];
      }
      offset := dataStart + Padded(size);
    }
    Unroll(archive, offset, objects);
  }

  /** Headers lie in the archive, one after the other with their data in between. */
  ghost predicate Apart(a: seq<Byte>, h: seq<nat>, off: nat) {
    && (forall i :: 0 <= i < |h| ==> h[i] >= off && HeaderAt(a, h[i]))
    && (forall i, j :: 0 <= i < j < |h| ==> h[i] + BLOCK + SizeAt(a, h[i]) <= h[j])
  }

  lemma {:induction false} HeadersApart(a: seq<Byte>, off: nat)
    ensures Apart(a, Headers(a, off), off)
    decreases |a| - off
  {
    hide Octal;
    if HeaderAt(a, off) {
      var next := NextOffset(a, off);
      HeadersApart(a, next);
    }
  }

  /** On arbitrary bytes, the members are exactly the headers read, in order, with at most one left out: the last one, and
      exactly if its data would reach past the end. */
  lemma {:induction false} AtMostLastDropped(a: seq<Byte>, off: nat)
    ensures var m, h := Members(a, off), Headers(a, off);
            && |h| - 1 <= |m| <= |h|
            && (forall i :: 0 <= i < |m| ==> HeaderAt(a, h[i]) && m[i] == ObjectAt(a, h[i]) && !Truncated(a, h[i]))
            && (|m| < |h| ==> HeaderAt(a, h[|h| - 1]) && Truncated(a, h[|h| - 1]))
    decreases |a| - off
  {
    hide Octal, NameOf, Hash;
    if HeaderAt(a, off) {
      var next := NextOffset(a, off);
      AtMostLastDropped(a, next);
      if Truncated(a, off) {
        assert Headers(a, next) == [] && Members(a, next) == [];
      }
    }
  }

  /** Every member's data lies inside the archive, and members do not overlap each other. */
  lemma MembersInBounds(a: seq<Byte>)
    ensures var m := Members(a, 0);
            && (forall i :: 0 <= i < |m| ==> BLOCK <= m[i].from <= m[i].to <= |a|)
            && (forall i, j :: 0 <= i < j < |m| ==> m[i].to <= m[j].from - BLOCK)
  {
    hide Octal, NameOf, Hash;
    HeadersApart(a, 0);
    AtMostLastDropped(a, 0);
  }

  /** A file to be archived; `template` holds the header bytes that this reader does not look at. */
  datatype File = File(name: seq<Byte>, data: seq<Byte>, template: seq<Byte>)

  function Pow8(k: nat): nat {
    if k == 0 then 1 else 8 * Pow8(k - 1)
  }

  predicate Archivable(f: File) {
    && 1 <= |f.name| <= 100 && Utf8(f.name) && (forall i :: 0 <= i < |f.name| ==> f.name[i] != 0)
    && |f.data| < Pow8(11) && |f.template| == 512
  }

  /** `k` octal digits, most significant first. */
  function OctalDigits(n: nat, k: nat): (d: seq<Byte>)
    ensures |d| == k
  {
    if k == 0 then [] else OctalDigits(n / 8, k - 1) + [0x30 + n % 8]
  }

  lemma {:induction false} OctalRoundTrip(n: nat, k: nat)
    requires n < Pow8(k)
    ensures Octal(OctalDigits(n, k)) == n
  {
    if k != 0 {
      hide Octal;
      OctalRoundTrip(n / 8, k - 1);
      OctalSnoc(OctalDigits(n / 8, k - 1), n % 8);
    }
  }

  lemma OctalSnoc(field: seq<Byte>, d: nat)
    requires d < 8
    ensures Octal(field + [0x30 + d]) == Octal(field) * 8 + d
  {
    assert (field + [0x30 + d])[..|field|] == field;
  }

  function Zeros(n: nat): seq<Byte> {
    seq(n, i => 0)
  }

  function HeaderOf(f: File): (h: seq<Byte>)
    requires Archivable(f)
    ensures |h| == BLOCK
  {
    f.name + Zeros(100 - |f.name|) + f.template[100..124] + OctalDigits(|f.data|, 11) + f.template[135..]
  }

  function EncodeFile(f: File): (e: seq<Byte>)
    requires Archivable(f)
    ensures |e| == BLOCK + Padded(|f.data|)
  {
    HeaderOf(f) + f.data + Zeros(Padded(|f.data|) - |f.data|)
  }

  function Encode(files: seq<File>): seq<Byte>
    requires forall f :: f in files ==> Archivable(f)
  {
    if files == [] then [] else EncodeFile(files[0]) + Encode(files[1..])
  }

  lemma {:induction false} NameLengthOfPadded(name: seq<Byte>, n: nat)
    requires forall i :: 0 <= i < |name| ==> name[i] != 0
    ensures NameLength(name + Zeros(n)) == |name|
  {
    if name == [] {
      assert name + Zeros(n) == Zeros(n);
    } else {
      NameLengthOfPadded(name[1..], n);
      assert (name + Zeros(n))[1..] == name[1..] + Zeros(n);
    }
  }

  /** The reader recovers the name and the size from an encoded header. */
  lemma HeaderPieces(f: File)
    requires Archivable(f)
    ensures var h := HeaderOf(f);
            h[0] == f.name[0] && h[..100] == f.name + Zeros(100 - |f.name|) && h[124..135] == OctalDigits(|f.data|, 11)
  {
    hide Utf8, OctalDigits;
  }

  lemma HeaderRoundTrip(a: seq<Byte>, off: nat, f: File)
    requires Archivable(f) && off + BLOCK <= |a| && a[off..off + BLOCK] == HeaderOf(f)
    ensures HeaderAt(a, off) && SizeAt(a, off) == |f.data| && NameOf(a[off..off + NAME_SIZE]) == f.name
  {
    hide Utf8, Octal, OctalDigits, HeaderOf, Zeros;
    var h := HeaderOf(f);
    HeaderPieces(f);
    assert a[off] == a[off..off + BLOCK][0];
    SubSlice(a, off, h, 0, NAME_SIZE);
    assert a[off..off + NAME_SIZE] == h[..NAME_SIZE];
    NameLengthOfPadded(f.name, NAME_SIZE - |f.name|);
    assert (f.name + Zeros(NAME_SIZE - |f.name|))[..|f.name|] == f.name;
    SubSlice(a, off, h, SIZE_AT, SIZE_AT + SIZE_LEN);
    OctalRoundTrip(|f.data|, SIZE_LEN);
  }

  /** The object is the file: same name, its identifier, and the same bytes. */
  ghost predicate IsFile(a: seq<Byte>, o: Object, f: File) {
    o.name == f.name && o.id == Hash(OFFSET_BASIS, f.name) && o.from <= o.to <= |a| && a[o.from..o.to] == f.data
  }

  lemma FileRoundTrip(a: seq<Byte>, off: nat, f: File)
    requires Archivable(f) && off + |EncodeFile(f)| <= |a| && a[off..off + |EncodeFile(f)|] == EncodeFile(f)
    ensures HeaderAt(a, off) && !Truncated(a, off) && NextOffset(a, off) == off + |EncodeFile(f)|
    ensures IsFile(a, ObjectAt(a, off), f)
  {
    hide HeaderOf, NameOf, Octal, Hash, Archivable;
    var e := EncodeFile(f);
    SubSlice(a, off, e, 0, BLOCK);
    assert a[off..off + BLOCK] == e[..BLOCK] == HeaderOf(f);
    HeaderRoundTrip(a, off, f);
    var from, to := off + BLOCK, off + BLOCK + |f.data|;
    SubSlice(a, off, e, BLOCK, BLOCK + |f.data|);
    assert e[BLOCK..BLOCK + |f.data|] == f.data;
  }

  /** Reading inverts archiving, for every list of files and every trailer that starts like an end-of-archive block
      or is shorter than a block. */
  lemma {:induction false} ParseInvertsEncode(pre: seq<Byte>, files: seq<File>, trailer: seq<Byte>)
    requires forall f :: f in files ==> Archivable(f)
    requires |trailer| < BLOCK || trailer[0] == 0
    ensures var a := pre + Encode(files) + trailer;
            var m := Members(a, |pre|);
            |m| == |files| && forall i :: 0 <= i < |files| ==> IsFile(a, m[i], files[i])
    decreases |files|
  {
    hide EncodeFile, IsFile, NextOffset, ObjectAt, Truncated, Archivable;
    var a := pre + Encode(files) + trailer;
    if files != [] {
      var e := EncodeFile(files[0]);
      var rest := files[1..];
      var a' := (pre + e) + Encode(rest) + trailer;
      assert a == a';
      assert a[|pre|..|pre| + |e|] == e;
      FileRoundTrip(a, |pre|, files[0]);
      ParseInvertsEncode(pre + e, rest, trailer);
      assert Members(a, |pre|) == [ObjectAt(a, |pre|)] + Members(a, |pre| + |e|);
    } else {
      assert a == pre + trailer;
    }
  }
}
