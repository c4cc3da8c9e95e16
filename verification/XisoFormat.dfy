/** The bytes of the disc image format by their offsets (xdfs.h; xiso.cpp: write_header,
    write_iso9660_stub, write_files, write_dirtable). */
module XisoFormat {
  import opened Bytes
  import opened Wrappers
  import opened XisoLayout
  import opened XisoTree
  import opened XisoImage
  import opened XisoTable
  import opened XisoMedia
  import opened XisoDisc
  import opened XisoReader

  // ---- Little-endian fields ----

  /** The bytes from `at` on hold `v`, the lowest first. */
  ghost predicate Field16(s: seq<byte>, at: nat, v: nat) {
    at + 2 <= |s| && s[at] as int + 0x100 * (s[at + 1] as int) == v
  }

  ghost predicate Field32(s: seq<byte>, at: nat, v: nat) {
    at + 4 <= |s| && Field16(s, at, v % 0x1_0000) && Field16(s, at + 2, v / 0x1_0000)
  }

  lemma Le16Field(s: seq<byte>, at: nat, v: u16)
    requires At(s, at, Le16(v))
    ensures Field16(s, at, v)
  {
    var f := s[at..at + 2];
    assert f[0] == s[at] && f[1] == s[at + 1];
  }

  lemma Le32Field(s: seq<byte>, at: nat, v: u32)
    requires At(s, at, Le32(v))
    ensures Field32(s, at, v)
  {
    var f := s[at..at + 4];
    assert f[0] == s[at] && f[1] == s[at + 1] && f[2] == s[at + 2] && f[3] == s[at + 3];
    Bytes32(v);
  }

  lemma Bytes32(v: u32)
    ensures v % 0x100 + 0x100 * (v / 0x100 % 0x100) == v % 0x1_0000
    ensures v / 0x1_0000 % 0x100 + 0x100 * (v / 0x100_0000) == v / 0x1_0000
  {
  }

  // ---- Directory records ----

  /** Left pointer at 0, right at 2, sector at 4, size at 8, attributes at 12 (0x10 for a directory,
      0x20 for a file), the length of the name at 13 and the name at 14. */
  lemma RecordFormat(l: u16, r: u16, start: u32, size: u32, isDir: bool, name: Name)
    ensures var rec := RecordBytes(l, r, start, size, isDir, name);
      && |rec| == 14 + |name|
      && Field16(rec, 0, l) && Field16(rec, 2, r) && Field32(rec, 4, start) && Field32(rec, 8, size)
      && rec[12] == (if isDir then 0x10 else 0x20) && rec[13] == |name| && rec[14..] == name
  {
    hide Le16, Le32, Field16, Field32;
    var rec := RecordBytes(l, r, start, size, isDir, name);
    assert rec[0..2] == Le16(l) && rec[2..4] == Le16(r);
    assert rec[4..8] == Le32(start) && rec[8..12] == Le32(size);
    Le16Field(rec, 0, l);
    Le16Field(rec, 2, r);
    Le32Field(rec, 4, start);
    Le32Field(rec, 8, size);
  }

  /** The record of a child: pointers in dwords to the middle records of the two halves, 0xFFFF for
      an empty half, then the child's sector and size. */
  lemma KidRecordFormat(kids: seq<Node>, s: nat, lo: int, hi: int)
    requires 0 <= lo <= hi < |kids| && TableSize(Names(kids)) <= MAX_TABLE && SectorsFit(kids, s)
    requires SizeOf(kids[Mid(lo, hi)]) < 0x1_0000_0000
    ensures var mid := (lo + hi) / 2;
      var rec := KidRecord(kids, s, lo, hi);
      && lo <= mid <= hi && |rec| == 14 + |kids[mid].name|
      && Field16(rec, 0, if lo < mid then RecordOffset(Names(kids), (lo + mid - 1) / 2) / 4 else 0xFFFF)
      && Field16(rec, 2, if mid < hi then RecordOffset(Names(kids), (mid + 1 + hi) / 2) / 4 else 0xFFFF)
      && Field32(rec, 4, KidSector(kids, s, mid)) && Field32(rec, 8, SizeOf(kids[mid]))
      && rec[12] == (if kids[mid].Dir? then 0x10 else 0x20)
      && rec[13] == |kids[mid].name| && rec[14..] == kids[mid].name
  {
    hide Field16, Field32, RecordBytes, KidSector, SizeOf, SectorsFit, TableSize;
    var names, mid := Names(kids), Mid(lo, hi);
    RecordFormat(Pointer(names, lo, mid - 1), Pointer(names, mid + 1, hi), KidSector(kids, s, mid) % 0x1_0000_0000,
                 SizeOf(kids[mid]) % 0x1_0000_0000, kids[mid].Dir?, kids[mid].name);
    KidFits(kids, s, mid);
    SmallPointer(names, lo, mid - 1);
    SmallPointer(names, mid + 1, hi);
  }

  lemma SmallPointer(names: seq<Name>, lo: int, hi: int)
    requires Range(names, lo, hi) && TableSize(names) <= MAX_TABLE
    ensures Pointer(names, lo, hi) == if lo <= hi then RecordOffset(names, (lo + hi) / 2) / 4 else 0xFFFF
  {
    if lo <= hi {
      RecordInTable(names, Mid(lo, hi));
    }
  }

  // ---- Directory tables and files ----

  lemma {:induction false} Untouched(ws: seq<Write>, img: seq<byte>, p: nat)
    requires p < |img| && forall w :: w in ws ==> !Covers(w, p)
    ensures p < |Apply(ws, img)| && Apply(ws, img)[p] == img[p]
  {
    if ws != [] {
      Untouched(ws[..|ws| - 1], img, p);
      assert ws[|ws| - 1] in ws;
    }
  }

  /** Every byte of a table outside its records is 0xFF. */
  lemma TablePadded(kids: seq<Node>, s: nat, p: nat)
    requires p < TableSize(Names(kids))
    requires forall i :: 0 <= i < |kids| ==>
      !(RecordOffset(Names(kids), i) <= p < RecordOffset(Names(kids), i) + 14 + |kids[i].name|)
    ensures |TableBytes(kids, s)| == TableSize(Names(kids)) && TableBytes(kids, s)[p] == 0xFF
  {
    hide TableSize, RecordOffset, KidRecord, Mid;
    TableBytesHold(kids, s);
    var rec, slots := KidWrites(kids, s), Slots(kids);
    var ws := InPrefixOrder(rec, 0, LastKid(kids));
    KidWritesFill(kids, s);
    forall w | w in ws ensures !Covers(w, p) {
      var i := StoreIndex(rec, 0, LastKid(kids), w);
      StoreFills(rec, slots, 0, LastKid(kids), i);
      assert slots[i] == Slot(RecordOffset(Names(kids), i), 14 + |kids[i].name|);
    }
    Untouched(ws, Padding(TableSize(Names(kids))), p);
  }

  /** A file is written from the start of its sector: its bytes, then 0xFF up to the next multiple of
      2048, and no more. */
  lemma FileFormat(n: Node, s: nat, np: bool)
    requires n.File?
    ensures var w, size := FileWrite(n, s, np), n.size % 0x1_0000_0000;
      && w.off == s * 2048 && |w.data| % 2048 == 0 && size <= |w.data| < size + 2048
      && w.data[..size] == Content(n, np) && forall k :: size <= k < |w.data| ==> w.data[k] == 0xFF
  {
  }

  /** The bytes a file is written with: what was read up to its scanned size, and 0xFF where less was
      read; with the patch on, a file named .xbe or .XBE has them patched. */
  lemma ContentFormat(n: Node, np: bool)
    requires n.File?
    ensures var size := n.size % 0x1_0000_0000;
      var plain := seq(size, k requires 0 <= k < size => if k < |n.data| then n.data[k] else 0xFF);
      var name := n.name;
      var xbe := |name| >= 4 && name[|name| - 4] == 0x2E &&
        (name[|name| - 3..] == [0x78, 0x62, 0x65] || name[|name| - 3..] == [0x58, 0x42, 0x45]);
      Content(n, np) == if xbe && !np then PatchChunks(plain) else plain
  {
    var size := n.size % 0x1_0000_0000;
    var plain := seq(size, k requires 0 <= k < size => if k < |n.data| then n.data[k] else 0xFF);
    assert Fill(n.data, size) == plain;
    XbeName(n.name);
  }

  lemma XbeName(name: Name)
    ensures IsXbe(name) <==>
      && |name| >= 4 && name[|name| - 4] == 0x2E
      && (name[|name| - 3..] == [0x78, 0x62, 0x65] || name[|name| - 3..] == [0x58, 0x42, 0x45])
  {
    if |name| >= 4 {
      var tail := name[|name| - 4..];
      assert tail == [name[|name| - 4]] + name[|name| - 3..];
      assert XBE_LOWER[1..] == [0x78, 0x62, 0x65] && XBE_UPPER[1..] == [0x58, 0x42, 0x45];
      assert tail[1..] == name[|name| - 3..];
    }
  }

  /** In a chunk, exactly the byte 0x7D behind E8 CA FD FF FF 85 C0 becomes 0xEB. */
  lemma PatchFormat(data: seq<byte>, k: nat)
    requires k < |data|
    ensures PatchOne(data)[k] ==
      if k >= 7 && data[k - 7..k + 1] == [0xE8, 0xCA, 0xFD, 0xFF, 0xFF, 0x85, 0xC0, 0x7D] then 0xEB else data[k]
  {
    if k >= 7 {
      OccursIsMatch(data, k - 7);
    }
  }

  /** Sectors of a file: the least number that holds it, and one for an empty one. */
  lemma SectorsLeast(size: nat)
    ensures var n := FileSectors(size);
      if size == 0 then n == 1 else (n - 1) * 2048 < size <= n * 2048
  {
  }

  /** The sectors of a directory: its table first, then its children one behind the other in order. */
  lemma KidSectorsFollow(kids: seq<Node>, s: nat, i: nat)
    requires i < |kids|
    ensures KidSector(kids, s, i) ==
      if i == 0 then s + TableSize(Names(kids)) / 2048
      else
        var before := kids[i - 1];
        KidSector(kids, s, i - 1)
        + if before.File? then FileSectors(before.size % 0x1_0000_0000)
          else KidSector(before.kids, 0, |before.kids|)
  {
    hide TableSectors;
    if i > 0 {
      KidSectorNext(kids, s, i - 1);
      SpanOf(kids[i - 1]);
    } else {
      assert KidSector(kids, s, 0) == s + TableSectors(Names(kids)) + SpanTo(kids, 0);
    }
  }

  lemma SpanOf(n: Node)
    ensures Span(n) == if n.File? then FileSectors(n.size % 0x1_0000_0000) else KidSector(n.kids, 0, |n.kids|)
  {
    hide TableSectors;
  }

  // ---- The volume ----

  /** Big enough for the descriptor, a multiple of 64 KiB, and no longer than that takes; 0xFF fills
      what is behind the last write. */
  lemma VolumeLength(kids: seq<Node>, np: bool)
    ensures var body, disc := Apply(BodyWrites(kids, np), []), DiscImage(kids, np);
      && |body| <= |disc| < |body| + 0x1_0000 && |disc| % 0x1_0000 == 0
      && (forall p :: |body| <= p < |disc| ==> disc[p] == 0xFF) && |disc| > 0x1_0000
  {
    hide BodyWrites, Apply;
    BodyHolds(kids, np);
    FinishedLength(Apply(BodyWrites(kids, np), []));
  }

  lemma FinishedLength(img: seq<byte>)
    requires |img| > 0x1_0000
    ensures var r := WithStub(PadTo64K(img));
      && |img| <= |r| < |img| + 0x1_0000 && |r| % 0x1_0000 == 0 && forall p :: |img| <= p < |r| ==> r[p] == 0xFF
  {
  }

  const SIGNATURE := "MICROSOFT*XBOX*MEDIA"

  /** The volume descriptor at 0x10000: the signature, the root table's sector and size, zeros, and the
      signature again at the end of its sector. */
  ghost predicate Describes(disc: seq<byte>, rootSector: nat, rootSize: nat) {
    && |disc| >= 0x1_0800
    && Field32(disc, 0x1_0014, rootSector) && Field32(disc, 0x1_0018, rootSize)
    && (forall k :: 0 <= k < 20 ==> disc[0x1_0000 + k] == SIGNATURE[k] as int)
    && (forall k :: 0x1_001C <= k < 0x1_07EC ==> disc[k] == 0)
    && (forall k :: 0 <= k < 20 ==> disc[0x1_07EC + k] == SIGNATURE[k] as int)
  }

  lemma VolumeFormat(kids: seq<Node>, np: bool)
    requires TableSize(Names(kids)) <= MAX_TABLE
    ensures Describes(DiscImage(kids, np), 0x108, TableSize(Names(kids)))
  {
    hide DiscImage, TableSize, TableSectors, Describes, HeaderBytes, Holds, At;
    DiscHolds(kids, np);
    DescriptorAt(DiscImage(kids, np), ROOT_SECTOR, TableSize(Names(kids)));
  }

  lemma DescriptorAt(disc: seq<byte>, rootSector: u32, rootSize: u32)
    requires At(disc, 0x1_0000, HeaderBytes(rootSector, rootSize))
    ensures Describes(disc, rootSector, rootSize)
  {
    hide Field32, Le32, HeaderBytes;
    var h := HeaderBytes(rootSector, rootSize);
    HeaderParts(rootSector, rootSize);
    AtPart(disc, 0x1_0000, h, Le32(rootSector), 20);
    AtPart(disc, 0x1_0000, h, Le32(rootSize), 24);
    Le32Field(disc, 0x1_0014, rootSector);
    Le32Field(disc, 0x1_0018, rootSize);
    forall k | 0x1_0000 <= k < 0x1_0800 ensures disc[k] == h[k - 0x1_0000] {
      assert disc[0x1_0000..0x1_0800][k - 0x1_0000] == h[k - 0x1_0000];
    }
  }

  lemma HeaderParts(rootSector: u32, rootSize: u32)
    ensures var h := HeaderBytes(rootSector, rootSize);
      && At(h, 20, Le32(rootSector)) && At(h, 24, Le32(rootSize))
      && (forall k :: 0 <= k < 20 ==> h[k] == SIGNATURE[k] as int)
      && (forall k :: 28 <= k < 0x7EC ==> h[k] == 0)
      && (forall k :: 0 <= k < 20 ==> h[0x7EC + k] == SIGNATURE[k] as int)
  {
    hide Le32;
    SignatureBytes();
    var h := HeaderBytes(rootSector, rootSize);
    assert h[20..24] == Le32(rootSector) && h[24..28] == Le32(rootSize);
  }

  lemma SignatureBytes()
    ensures |MAGIC| == |SIGNATURE| == 20 && forall k :: 0 <= k < 20 ==> MAGIC[k] == SIGNATURE[k] as int
  {
  }

  /** The ISO 9660 stub: from 0x8000 on, sectors that start with a type, "CD001" and version 1 and
      are zero otherwise; a primary volume descriptor and a terminator. */
  lemma StubFormat(kids: seq<Node>, np: bool)
    ensures var disc := DiscImage(kids, np);
      && |disc| > 0x9000
      && disc[0x8000..0x8007] == [1, 0x43, 0x44, 0x30, 0x30, 0x31, 1]
      && disc[0x8800..0x8807] == [0xFF, 0x43, 0x44, 0x30, 0x30, 0x31, 1]
      && (forall k :: 0x8007 <= k < 0x8800 || 0x8807 <= k < 0x9000 ==> disc[k] == 0)
  {
    hide BodyWrites, Apply;
    BodyHolds(kids, np);
    StubOf(PadTo64K(Apply(BodyWrites(kids, np), [])));
  }

  lemma StubOf(img: seq<byte>)
    requires |img| > 0x1_0000
    ensures var r := WithStub(img);
      && |r| == |img|
      && r[0x8000..0x8007] == [1, 0x43, 0x44, 0x30, 0x30, 0x31, 1]
      && r[0x8800..0x8807] == [0xFF, 0x43, 0x44, 0x30, 0x30, 0x31, 1]
      && (forall k :: 0x8007 <= k < 0x8800 || 0x8807 <= k < 0x9000 ==> r[k] == 0)
  {
    hide Put;
    var first, second := StubSector(0x01), StubSector(0xFF);
    var r := WithStub(img);
    var one := Put(img, 0x8000, first);
    assert forall k :: 0x8000 <= k < 0x8800 ==> r[k] == first[k - 0x8000];
    assert forall k :: 0x8800 <= k < 0x9000 ==> r[k] == second[k - 0x8800];
    assert r[0x8000..0x8007] == first[..7];
    assert r[0x8800..0x8807] == second[..7];
  }

  // ---- Reading ----

  /** Where the partition may start, in the order in which it is looked for. */
  lemma ProbeOrder()
    ensures XGD_OFFSETS == [0, 0x0FD9_0000, 0x0208_0000, 0x1830_0000]
  {
  }

  /** The signature is looked for 0x10000 bytes behind the start of a partition. */
  lemma SignatureProbed(file: seq<byte>, off: nat)
    ensures HasMagic(file, off) <==>
      off + 0x1_0014 <= |file| && forall k :: 0 <= k < 20 ==> file[off + 0x1_0000 + k] == SIGNATURE[k] as int
  {
    SignatureBytes();
    if off + 0x1_0014 <= |file| {
      var part := file[off + 0x1_0000..off + 0x1_0014];
      assert forall k :: 0 <= k < 20 ==> part[k] == file[off + 0x1_0000 + k];
    }
  }

  /** A file opens if and only if a probed offset has the signature and 16 more bytes are behind the
      first that does; the first 8 of them are the sector and the size of the root table. */
  lemma OpensExactly(file: seq<byte>)
    ensures Opened(file) == None <==>
      (forall i :: 0 <= i < 4 ==> !HasMagic(file, XGD_OFFSETS[i]))
      || (exists i :: 0 <= i < 4 && HasMagic(file, XGD_OFFSETS[i]) && XGD_OFFSETS[i] + 0x1_0024 > |file|
            && forall j :: 0 <= j < i ==> !HasMagic(file, XGD_OFFSETS[j]))
    ensures Opened(file) != None ==>
      var img := Opened(file).value;
      && img.bytes == file && Field32(file, img.baseOffset + 0x1_0014, img.rootSector)
      && Field32(file, img.baseOffset + 0x1_0018, img.rootSize)
      && exists i :: 0 <= i < 4 && img.baseOffset == XGD_OFFSETS[i] && HasMagic(file, XGD_OFFSETS[i])
                     && forall j :: 0 <= j < i ==> !HasMagic(file, XGD_OFFSETS[j])
  {
    hide HasMagic, RdLe32, Field32;
    FirstProbed(file, 0);
    var img := Opened(file);
    if img != None {
      ReadField(file, img.value.baseOffset + 0x1_0014);
      ReadField(file, img.value.baseOffset + 0x1_0018);
    }
  }

  lemma {:induction false} FirstProbed(file: seq<byte>, i: nat)
    requires i <= 4
    ensures match ProbeFrom(file, i)
      case None => forall k :: i <= k < 4 ==> !HasMagic(file, XGD_OFFSETS[k])
      case Some(off) =>
        exists k :: i <= k < 4 && off == XGD_OFFSETS[k] && HasMagic(file, XGD_OFFSETS[k])
          && forall j :: i <= j < k ==> !HasMagic(file, XGD_OFFSETS[j])
    decreases 4 - i
  {
    hide HasMagic;
    if i < 4 {
      FirstProbed(file, i + 1);
    }
  }

  lemma ReadField(file: seq<byte>, at: nat)
    requires at + 4 <= |file|
    ensures Field32(file, at, RdLe32(file, at))
  {
    var low: nat := file[at] as int + 0x100 * (file[at + 1] as int);
    var high: nat := file[at + 2] as int + 0x100 * (file[at + 3] as int);
    Halves(low, high);
    assert RdLe32(file, at) == low + 0x1_0000 * high;
  }

  lemma Halves(low: nat, high: nat)
    requires low < 0x1_0000
    ensures (low + 0x1_0000 * high) % 0x1_0000 == low && (low + 0x1_0000 * high) / 0x1_0000 == high
  {
  }

  /** A record can be read when its 14 bytes of prefix and its name are inside the table. */
  lemma ParsesExactly(buf: seq<byte>, off: nat)
    ensures ParseRecord(buf, off) == None <==> off + 14 > |buf| || off + 14 + buf[off + 13] > |buf|
    ensures ParseRecord(buf, off) != None ==>
      var e := ParseRecord(buf, off).value;
      && |e.name| == buf[off + 13] && e.name == buf[off + 14..off + 14 + |e.name|]
      && Field32(buf, off + 4, e.startSector) && Field32(buf, off + 8, e.fileSize) && e.attributes == buf[off + 12]
    ensures off + 4 <= |buf| ==> Field16(buf, off, ReadLr(buf, off).0) && Field16(buf, off + 2, ReadLr(buf, off).1)
    ensures off + 4 > |buf| ==> ReadLr(buf, off) == (0, 0)
  {
    hide RdLe32, Field32;
    if off + 14 <= |buf| {
      ReadField(buf, off + 4);
      ReadField(buf, off + 8);
    }
  }

  /** A table of more than 16 MiB is not read, and one that the image cuts short reads as nothing. */
  lemma TablesRefused(img: Image, sector: u32, size: u32)
    ensures var start, sectors := img.baseOffset + sector * 2048, if size == 0 then 1 else (size + 2047) / 2048;
      if size > 0x100_0000 || start + sectors * 2048 > |img.bytes| then ReadDirtable(img, sector, size) == []
      else ReadDirtable(img, sector, size) == img.bytes[start..start + sectors * 2048]
  {
  }

  // ---- Name order ----

  /** Names are compared byte by byte with ASCII small letters counted as capitals, and a name that
      ends is less. */
  lemma CompareExactly(a: seq<byte>, b: seq<byte>)
    ensures CiLess(a, b) <==>
      if b == [] then false
      else if a == [] then true
      else
        var x := if 0x61 <= a[0] <= 0x7A then a[0] - 0x20 else a[0];
        var y := if 0x61 <= b[0] <= 0x7A then b[0] - 0x20 else b[0];
        x < y || (x == y && CiLess(a[1..], b[1..]))
  {
  }
}
