/** Opening, walking and extracting an image (xiso.cpp: xiso_open, read_dirtable, walk,
    xiso_extract). */
module XisoReader {
  import opened Bytes
  import opened Wrappers
  import opened XisoLayout
  import opened XisoTree
  import opened XisoImage
  import opened XisoTable
  import opened XisoDisc

  const MAX_DIRTABLE: nat := 0x100_0000

  /** An open image: the file, where its game partition starts, and the root table. */
  datatype Image = Image(bytes: seq<byte>, baseOffset: nat, rootSector: u32, rootSize: u32)

  /** The bytes of the game partition. */
  function Partition(img: Image): seq<byte> {
    if img.baseOffset <= |img.bytes| then img.bytes[img.baseOffset..] else []
  }

  /** Up to `n` bytes of the partition from `off`. */
  function ReadUpTo(img: Image, off: nat, n: nat): (r: seq<byte>)
    ensures |r| <= n
  {
    var part := Partition(img);
    if off >= |part| then []
    else if off + n <= |part| then part[off..off + n]
    else part[off..]
  }

  // ---- Opening ----

  const XGD_OFFSETS: seq<nat> := [0, 0x0FD9_0000, 0x0208_0000, 0x1830_0000]

  predicate HasMagic(file: seq<byte>, off: nat) {
    off + HEADER_OFFSET + 20 <= |file| && file[off + HEADER_OFFSET..off + HEADER_OFFSET + 20] == MAGIC
  }

  /** The first partition offset, in probing order, that carries the magic. */
  function ProbeFrom(file: seq<byte>, i: nat): Option<nat>
    requires i <= |XGD_OFFSETS|
    decreases |XGD_OFFSETS| - i
  {
    if i == |XGD_OFFSETS| then None
    else if HasMagic(file, XGD_OFFSETS[i]) then Some(XGD_OFFSETS[i])
    else ProbeFrom(file, i + 1)
  }

  /** The image a file opens as, if any. */
  function Opened(file: seq<byte>): Option<Image> {
    var probed := ProbeFrom(file, 0);
    if probed.None? then None
    else
      var at := probed.value + HEADER_OFFSET + 20;
      if at + 16 > |file| then None
      else Some(Image(file, probed.value, RdLe32(file, at), RdLe32(file, at + 4)))
  }

  method Open(file: seq<byte>) returns (img: Option<Image>)
    ensures img == Opened(file)
  {
    var baseOffset, found := 0, false;
    var i := 0;
    while i < |XGD_OFFSETS| && !found
      invariant i <= |XGD_OFFSETS|
      invariant found ==> ProbeFrom(file, 0) == Some(baseOffset)
      invariant !found ==> ProbeFrom(file, 0) == ProbeFrom(file, i)
    {
      if HasMagic(file, XGD_OFFSETS[i]) {
        baseOffset, found := XGD_OFFSETS[i], true;
      }
      i := i + 1;
    }
    if !found {
      return None;
    }
    var at := baseOffset + HEADER_OFFSET + 20;
    if at + 8 > |file| {
      return None;
    }
    var rootSector, rootSize := RdLe32(file, at), RdLe32(file, at + 4);
    if at + 8 + 8 > |file| {
      return None;
    }
    return Some(Image(file, baseOffset, rootSector, rootSize));
  }

  /** Header fields are read back from wherever the header sits. */
  lemma HeaderReads(file: seq<byte>, base: nat, rootSector: u32, rootSize: u32)
    requires At(file, base + HEADER_OFFSET, HeaderBytes(rootSector, rootSize))
    ensures HasMagic(file, base)
    ensures base + HEADER_OFFSET + 36 <= |file|
    ensures RdLe32(file, base + HEADER_OFFSET + 20) == rootSector
    ensures RdLe32(file, base + HEADER_OFFSET + 24) == rootSize
  {
    var off, h := base + HEADER_OFFSET, HeaderBytes(rootSector, rootSize);
    assert h[0..20] == MAGIC;
    AtPart(file, off, h, MAGIC, 0);
    assert h[20..24] == Le32(rootSector);
    AtPart(file, off, h, Le32(rootSector), 20);
    ReadBack32(file, off + 20, rootSector);
    assert h[24..28] == Le32(rootSize);
    AtPart(file, off, h, Le32(rootSize), 24);
    ReadBack32(file, off + 24, rootSize);
  }

  /** A created image opens as a plain image with the right root table. */
  lemma CreatedOpens(kids: seq<Node>, np: bool)
    requires TableSize(Names(kids)) <= MAX_TABLE
    ensures Opened(DiscImage(kids, np)) == Some(Image(DiscImage(kids, np), 0, ROOT_SECTOR, TableSize(Names(kids))))
  {
    hide DiscImage, HeaderBytes, TableSize, Holds, RdLe32;
    var disc := DiscImage(kids, np);
    DiscHolds(kids, np);
    HeaderReads(disc, 0, ROOT_SECTOR, TableSize(Names(kids)));
    assert ProbeFrom(disc, 0) == Some(0);
  }

  /** A created image embedded at one of the probed offsets opens there, unless an earlier offset
      happens to carry the magic. */
  lemma EmbeddedOpens(file: seq<byte>, k: nat, kids: seq<Node>, np: bool)
    requires k < |XGD_OFFSETS| && At(file, XGD_OFFSETS[k], DiscImage(kids, np))
    requires forall j :: 0 <= j < k ==> !HasMagic(file, XGD_OFFSETS[j])
    requires TableSize(Names(kids)) <= MAX_TABLE
    ensures Opened(file) == Some(Image(file, XGD_OFFSETS[k], ROOT_SECTOR, TableSize(Names(kids))))
  {
    hide DiscImage, HeaderBytes, TableSize, Holds, RdLe32, HasMagic;
    var base := XGD_OFFSETS[k];
    DiscHolds(kids, np);
    HeaderEmbedded(file, base, DiscImage(kids, np), HeaderBytes(ROOT_SECTOR, TableSize(Names(kids))));
    HeaderReads(file, base, ROOT_SECTOR, TableSize(Names(kids)));
    ProbeReaches(file, k, 0);
  }

  lemma HeaderEmbedded(file: seq<byte>, base: nat, disc: seq<byte>, header: seq<byte>)
    requires At(file, base, disc) && At(disc, HEADER_OFFSET, header)
    ensures At(file, base + HEADER_OFFSET, header)
  {
    AtPart(file, base, disc, header, HEADER_OFFSET);
  }

  lemma {:induction false} ProbeReaches(file: seq<byte>, k: nat, i: nat)
    requires i <= k < |XGD_OFFSETS| && HasMagic(file, XGD_OFFSETS[k])
    requires forall j :: i <= j < k ==> !HasMagic(file, XGD_OFFSETS[j])
    ensures ProbeFrom(file, i) == Some(XGD_OFFSETS[k])
    decreases k - i
  {
    hide HasMagic;
    if i < k {
      ProbeReaches(file, k, i + 1);
    }
  }

  // ---- What a walk must visit ----

  datatype Visit = Visit(entry: Entry, path: seq<byte>, depth: nat)

  function PathOf(base: seq<byte>, name: seq<byte>): seq<byte> {
    base + [0x5C] + name
  }

  ghost function KidEntry(kids: seq<Node>, s: nat, i: nat): Entry
    requires i < |kids|
  {
    Entry(kids[i].name, KidSector(kids, s, i) % 0x1_0000_0000, SizeOf(kids[i]) % 0x1_0000_0000,
          Attributes(kids[i].Dir?))
  }

  /** Child `i` and everything below it. */
  ghost function KidVisits(kids: seq<Node>, s: nat, i: nat, path: seq<byte>, depth: nat): seq<Visit>
    requires i < |kids|
    decreases kids, 0
  {
    var kid := kids[i];
    var kidPath := PathOf(path, kid.name);
    [Visit(KidEntry(kids, s, i), kidPath, depth)] +
    if kid.Dir? then Listing(kid.kids, KidSector(kids, s, i), kidPath, depth + 1) else []
  }

  /** The children `lo..hi` with everything below them, in tree order. */
  ghost function RangeVisits(kids: seq<Node>, s: nat, lo: int, hi: int, path: seq<byte>, depth: nat): seq<Visit>
    requires 0 <= lo <= hi + 1 <= |kids|
    decreases kids, 1, hi - lo + 1
  {
    if lo > hi then []
    else
      var mid := Mid(lo, hi);
      KidVisits(kids, s, mid, path, depth)
      + (RangeVisits(kids, s, lo, mid - 1, path, depth) + RangeVisits(kids, s, mid + 1, hi, path, depth))
  }

  /** All entries below a directory whose table is at sector `s`. */
  ghost function Listing(kids: seq<Node>, s: nat, path: seq<byte>, depth: nat): seq<Visit>
    decreases kids, 2
  {
    RangeVisits(kids, s, 0, |kids| - 1, path, depth)
  }

  /** The same entries without the search tree: children one after the other. */
  ghost function InOrder(kids: seq<Node>, s: nat, lo: int, hi: int, path: seq<byte>, depth: nat): seq<Visit>
    requires 0 <= lo <= hi + 1 <= |kids|
    decreases hi - lo + 1
  {
    if lo > hi then [] else InOrder(kids, s, lo, hi - 1, path, depth) + KidVisits(kids, s, hi, path, depth)
  }

  lemma {:induction false} InOrderSplits(kids: seq<Node>, s: nat, lo: int, mid: int, hi: int, path: seq<byte>,
                                         depth: nat)
    requires 0 <= lo <= mid <= hi < |kids|
    ensures InOrder(kids, s, lo, hi, path, depth) ==
      InOrder(kids, s, lo, mid - 1, path, depth) + KidVisits(kids, s, mid, path, depth)
      + InOrder(kids, s, mid + 1, hi, path, depth)
    decreases hi
  {
    hide KidVisits;
    if mid == hi {
      assert InOrder(kids, s, mid + 1, hi, path, depth) == [];
    } else {
      InOrderSplits(kids, s, lo, mid, hi - 1, path, depth);
    }
  }

  ghost predicate Permutation(a: seq<Visit>, b: seq<Visit>) {
    multiset(a) == multiset(b)
  }

  /** The walk order is a permutation of the children's order: every entry exactly once. */
  lemma {:induction false} VisitsOnce(kids: seq<Node>, s: nat, lo: int, hi: int, path: seq<byte>, depth: nat)
    requires 0 <= lo <= hi + 1 <= |kids|
    ensures Permutation(RangeVisits(kids, s, lo, hi, path, depth), InOrder(kids, s, lo, hi, path, depth))
    decreases hi - lo + 1
  {
    hide KidVisits, RangeVisits, InOrder, Mid;
    UnfoldVisits(kids, s, lo, hi, path, depth);
    if lo <= hi {
      var mid := Mid(lo, hi);
      VisitsOnce(kids, s, lo, mid - 1, path, depth);
      VisitsOnce(kids, s, mid + 1, hi, path, depth);
      InOrderSplits(kids, s, lo, mid, hi, path, depth);
      JoinPermuted(KidVisits(kids, s, mid, path, depth),
                   RangeVisits(kids, s, lo, mid - 1, path, depth), InOrder(kids, s, lo, mid - 1, path, depth),
                   RangeVisits(kids, s, mid + 1, hi, path, depth), InOrder(kids, s, mid + 1, hi, path, depth),
                   RangeVisits(kids, s, lo, hi, path, depth), InOrder(kids, s, lo, hi, path, depth));
    }
  }

  lemma UnfoldVisits(kids: seq<Node>, s: nat, lo: int, hi: int, path: seq<byte>, depth: nat)
    requires 0 <= lo <= hi + 1 <= |kids|
    ensures lo > hi ==> RangeVisits(kids, s, lo, hi, path, depth) == InOrder(kids, s, lo, hi, path, depth)
    ensures lo <= hi ==>
      RangeVisits(kids, s, lo, hi, path, depth) ==
        KidVisits(kids, s, Mid(lo, hi), path, depth)
        + (RangeVisits(kids, s, lo, Mid(lo, hi) - 1, path, depth)
           + RangeVisits(kids, s, Mid(lo, hi) + 1, hi, path, depth))
  {
  }

  lemma JoinPermuted(x: seq<Visit>, l: seq<Visit>, l': seq<Visit>, r: seq<Visit>, r': seq<Visit>, a: seq<Visit>,
                     b: seq<Visit>)
    requires Permutation(l, l') && Permutation(r, r')
    requires a == x + (l + r) && b == l' + x + r'
    ensures Permutation(a, b)
  {
  }

  // ---- Walking ----

  /** A directory table read whole, or nothing when it is too large or cut short. */
  function ReadDirtable(img: Image, sector: u32, size: u32): seq<byte> {
    if size > MAX_DIRTABLE then []
    else
      var rounded := (size + 2047) / 2048 * 2048;
      var alloc := if rounded == 0 then 2048 else rounded;
      var r := ReadUpTo(img, sector * 2048, alloc);
      if |r| == alloc then r else []
  }

  /** A table in the partition is read back exactly. */
  lemma DirtableReads(img: Image, kids: seq<Node>, s: u32)
    requires At(Partition(img), s * 2048, TableBytes(kids, s)) && TableSize(Names(kids)) <= MAX_TABLE
    ensures ReadDirtable(img, s, TableSize(Names(kids))) == TableBytes(kids, s)
    ensures TableHolds(TableBytes(kids, s), kids, s)
  {
    hide TableBytes, TableHolds;
    TableBytesHold(kids, s);
    TableSizeOf(TableBytes(kids, s), kids, s);
    TableSectorsPositive(Names(kids));
    WholeSectors(TableSectors(Names(kids)));
  }

  lemma TableSizeOf(table: seq<byte>, kids: seq<Node>, s: nat)
    requires TableHolds(table, kids, s)
    ensures |table| == TableSize(Names(kids))
  {
  }

  lemma WholeSectors(n: nat)
    ensures (2048 * n + 2047) / 2048 * 2048 == 2048 * n
  {
  }

  /** Reading the record of the middle of `lo..hi` gives that child's entry and the
      pointers to the two halves. */
  lemma RecordReads(table: seq<byte>, kids: seq<Node>, s: nat, lo: int, hi: int)
    requires 0 <= lo <= hi < |kids| && AllStored(table, KidWrites(kids, s), lo, hi)
    ensures var mid := Mid(lo, hi);
      var off := RecordOffset(Names(kids), mid);
      && ParseRecord(table, off) == Some(KidEntry(kids, s, mid))
      && (KidEntry(kids, s, mid).IsDir() <==> kids[mid].Dir?)
      && ReadLr(table, off) == (Pointer(Names(kids), lo, mid - 1), Pointer(Names(kids), mid + 1, hi))
  {
    hide RecordBytes, ParseRecord, ReadLr, Pointer, SizeOf, KidSector;
    var mid := Mid(lo, hi);
    ParseBack(table, RecordOffset(Names(kids), mid), Pointer(Names(kids), lo, mid - 1),
              Pointer(Names(kids), mid + 1, hi), KidSector(kids, s, mid) % 0x1_0000_0000,
              SizeOf(kids[mid]) % 0x1_0000_0000, kids[mid].Dir?, kids[mid].name);
  }

  /** A range of children that the walk still has to visit, and the place of its root. */
  ghost predicate RangeOk(table: seq<byte>, kids: seq<Node>, s: nat, off: nat, lo: int, hi: int) {
    && 0 <= lo <= hi < |kids|
    && off == RecordOffset(Names(kids), Mid(lo, hi))
    && AllStored(table, KidWrites(kids, s), lo, hi)
    && ((lo == 0 && hi == |kids| - 1) || !(lo <= Mid(0, |kids| - 1) <= hi))
  }

  /** Following a pointer leads to the root of its range, and an empty range has none. */
  lemma PointerFollows(names: seq<Name>, lo: int, hi: int)
    requires Range(names, lo, hi) && TableSize(names) <= MAX_TABLE
    requires lo <= hi ==> !(lo <= Mid(0, |names| - 1) <= hi)
    ensures lo > hi ==> Pointer(names, lo, hi) == PAD_SHORT
    ensures lo <= hi ==>
      && Pointer(names, lo, hi) != NULL_CHILD && Pointer(names, lo, hi) != PAD_SHORT
      && Pointer(names, lo, hi) * 4 == RecordOffset(names, Mid(lo, hi)) < TableSize(names)
  {
    hide Mid;
    if lo <= hi {
      PointerValid(names, Mid(lo, hi));
      RecordInTable(names, Mid(lo, hi));
      var off := RecordOffset(names, Mid(lo, hi));
      assert off / 4 % 0x1_0000 == off / 4;
    }
  }

  /** The halves of a range are ranges to visit in their own right. */
  lemma HalvesOk(table: seq<byte>, kids: seq<Node>, s: nat, off: nat, lo: int, hi: int)
    requires RangeOk(table, kids, s, off, lo, hi) && TableSize(Names(kids)) <= MAX_TABLE
    ensures var mid := Mid(lo, hi);
      && ChildOk(table, kids, s, lo, mid - 1)
      && ChildOk(table, kids, s, mid + 1, hi)
  {
    hide KidWrites, RecordOffset, Mid, Pointer, TableSize;
    var mid := Mid(lo, hi);
    PointerFollows(Names(kids), lo, mid - 1);
    PointerFollows(Names(kids), mid + 1, hi);
  }

  ghost predicate ChildOk(table: seq<byte>, kids: seq<Node>, s: nat, lo: int, hi: int) {
    && 0 <= lo <= hi + 1 <= |kids|
    && var p := Pointer(Names(kids), lo, hi);
      && (lo > hi ==> p == PAD_SHORT)
      && (lo <= hi ==>
            && p != NULL_CHILD && p != PAD_SHORT && p * 4 < TableSize(Names(kids))
            && RangeOk(table, kids, s, p * 4, lo, hi))
  }

  ghost predicate StackOk(table: seq<byte>, kids: seq<Node>, s: nat, stack: seq<nat>, ranges: seq<(int, int)>) {
    && |stack| == |ranges|
    && forall k :: 0 <= k < |stack| ==> RangeOk(table, kids, s, stack[k], ranges[k].0, ranges[k].1)
  }

  /** What the ranges on the stack still contribute, the top of the stack first. */
  ghost function Pending(kids: seq<Node>, s: nat, ranges: seq<(int, int)>, path: seq<byte>, depth: nat): seq<Visit>
  {
    if ranges == [] then []
    else
      var top := |ranges| - 1;
      var (lo, hi) := ranges[top];
      (if 0 <= lo <= hi < |kids| then RangeVisits(kids, s, lo, hi, path, depth) else [])
      + Pending(kids, s, ranges[..top], path, depth)
  }

  /** How many entries of this table are still to be visited. */
  ghost function Work(ranges: seq<(int, int)>): nat {
    if ranges == [] then 0
    else
      var (lo, hi) := ranges[|ranges| - 1];
      (if lo <= hi then hi - lo + 1 else 0) + Work(ranges[..|ranges| - 1])
  }

  lemma PendingPush(kids: seq<Node>, s: nat, ranges: seq<(int, int)>, lo: int, hi: int, path: seq<byte>, depth: nat)
    requires 0 <= lo <= hi < |kids|
    ensures Pending(kids, s, ranges + [(lo, hi)], path, depth) ==
      RangeVisits(kids, s, lo, hi, path, depth) + Pending(kids, s, ranges, path, depth)
    ensures Work(ranges + [(lo, hi)]) == hi - lo + 1 + Work(ranges)
  {
    hide RangeVisits;
    assert (ranges + [(lo, hi)])[..|ranges|] == ranges;
  }

  /** Push a child pointer of a record, unless it says there is no child. */
  method PushChild(buf: seq<byte>, pointer: u16, stack: seq<nat>,
                   ghost kids: seq<Node>, ghost s: nat, ghost lo: int, ghost hi: int, ghost ranges: seq<(int, int)>,
                   ghost path: seq<byte>, ghost depth: nat)
    returns (stack': seq<nat>, ghost ranges': seq<(int, int)>)
    requires ChildOk(buf, kids, s, lo, hi) && pointer == Pointer(Names(kids), lo, hi)
    requires |buf| == TableSize(Names(kids)) && StackOk(buf, kids, s, stack, ranges)
    ensures |stack'| == |ranges'| && StackOk(buf, kids, s, stack', ranges')
    ensures Pending(kids, s, ranges', path, depth) ==
      RangeVisits(kids, s, lo, hi, path, depth) + Pending(kids, s, ranges, path, depth)
    ensures Work(ranges') == hi - lo + 1 + Work(ranges)
  {
    hide RangeVisits, Pointer, Mid, RecordOffset, KidWrites, TableSize;
    stack', ranges' := stack, ranges;
    if pointer != NULL_CHILD && pointer != PAD_SHORT {
      var child := pointer * 4;
      if child < |buf| {
        stack' := stack + [child];
        ranges' := ranges + [(lo, hi)];
        PendingPush(kids, s, ranges, lo, hi, path, depth);
      }
    } else {
      UnfoldNoVisits(kids, s, lo, hi, path, depth);
    }
  }

  lemma UnfoldNoVisits(kids: seq<Node>, s: nat, lo: int, hi: int, path: seq<byte>, depth: nat)
    requires 0 <= lo == hi + 1 <= |kids|
    ensures RangeVisits(kids, s, lo, hi, path, depth) == []
  {
  }

  lemma KidFits(kids: seq<Node>, s: nat, i: nat)
    requires i < |kids| && SectorsFit(kids, s)
    ensures KidSector(kids, s, i) < 0x1_0000_0000
    ensures kids[i].Dir? ==> SectorsFit(kids[i].kids, KidSector(kids, s, i))
  {
    SpanToMonotone(kids, i + 1, |kids|);
  }

  /** A non-empty table starts with a record, which is never mistaken for padding. */
  lemma RootRange(table: seq<byte>, kids: seq<Node>, s: nat)
    requires TableHolds(table, kids, s) && kids != []
    ensures RangeOk(table, kids, s, 0, 0, |kids| - 1)
    ensures |table| > 12 && table[12] != PAD_BYTE
  {
    hide KidSector, SizeOf, KidWrites, TableSize, Mid;
    RootOffset(Names(kids));
    RecordReads(table, kids, s, 0, LastKid(kids));
  }

  /** What the walk starts from: an empty table is recognised, any other one is pushed whole. */
  lemma WalkStart(table: seq<byte>, kids: seq<Node>, s: nat, path: seq<byte>, depth: nat)
    requires TableHolds(table, kids, s)
    ensures |table| > 12 && (kids == [] <==> table[12] == PAD_BYTE)
    ensures kids == [] ==> Listing(kids, s, path, depth) == []
    ensures kids != [] ==>
      && StackOk(table, kids, s, [0], [(0, |kids| - 1)])
      && Pending(kids, s, [(0, |kids| - 1)], path, depth) == Listing(kids, s, path, depth)
  {
    if kids == [] {
      UnfoldNoVisits(kids, s, 0, -1, path, depth);
      TableSectorsPositive(Names(kids));
    } else {
      RootRange(table, kids, s);
      assert [(0, |kids| - 1)][..0] == [];
    }
  }

  lemma PopRange(table: seq<byte>, kids: seq<Node>, s: nat, stack: seq<nat>, ranges: seq<(int, int)>,
                 path: seq<byte>, depth: nat)
    requires StackOk(table, kids, s, stack, ranges) && stack != []
    ensures var top := |stack| - 1;
      && |ranges| == top + 1
      && 0 <= ranges[top].0 <= ranges[top].1 < |kids|
      && RangeOk(table, kids, s, stack[top], ranges[top].0, ranges[top].1)
      && StackOk(table, kids, s, stack[..top], ranges[..top])
      && Pending(kids, s, ranges, path, depth) ==
           RangeVisits(kids, s, ranges[top].0, ranges[top].1, path, depth)
           + Pending(kids, s, ranges[..top], path, depth)
      && Work(ranges) == ranges[top].1 - ranges[top].0 + 1 + Work(ranges[..top])
  {
    hide RangeVisits;
  }

  lemma Regroup(a: seq<Visit>, x: seq<Visit>, l: seq<Visit>, r: seq<Visit>, rest: seq<Visit>)
    ensures a + ((x + (l + r)) + rest) == (a + x) + (l + (r + rest))
  {
  }

  lemma DirSizeFits(dir: Node)
    requires dir.Dir? && SmallTables(dir)
    ensures 0 < SizeOf(dir) <= MAX_TABLE && SizeOf(dir) == TableSize(Names(dir.kids))
  {
    TableSectorsPositive(Names(dir.kids));
  }

  /** The entry of a subdirectory names the place and the size of its table. */
  lemma DirEntry(kids: seq<Node>, s: nat, i: nat)
    requires i < |kids| && kids[i].Dir? && SmallTables(kids[i]) && SectorsFit(kids, s)
    ensures KidEntry(kids, s, i).startSector == KidSector(kids, s, i)
    ensures KidEntry(kids, s, i).fileSize == TableSize(Names(kids[i].kids)) > 0
    ensures SectorsFit(kids[i].kids, KidSector(kids, s, i))
  {
    hide KidSector, TableSize, SectorsFit, SmallTables;
    DirSizeFits(kids[i]);
    KidFits(kids, s, i);
  }

  /** The record where a pending range says its root is. */
  lemma RangeReads(table: seq<byte>, kids: seq<Node>, s: nat, off: nat, lo: int, hi: int)
    requires RangeOk(table, kids, s, off, lo, hi)
    ensures 0 <= lo <= hi < |kids|
    ensures var mid := Mid(lo, hi);
      && ParseRecord(table, off) == Some(KidEntry(kids, s, mid))
      && (KidEntry(kids, s, mid).IsDir() <==> kids[mid].Dir?)
      && ReadLr(table, off) == (Pointer(Names(kids), lo, mid - 1), Pointer(Names(kids), mid + 1, hi))
  {
    hide ParseRecord, ReadLr, Pointer, KidEntry, KidWrites;
    RecordReads(table, kids, s, lo, hi);
  }

  lemma UnfoldKid(kids: seq<Node>, s: nat, i: nat, path: seq<byte>, depth: nat)
    requires i < |kids|
    ensures var kidPath := PathOf(path, kids[i].name);
      KidVisits(kids, s, i, path, depth) == [Visit(KidEntry(kids, s, i), kidPath, depth)] +
        if kids[i].Dir? then Listing(kids[i].kids, KidSector(kids, s, i), kidPath, depth + 1) else []
    ensures KidEntry(kids, s, i).name == kids[i].name
  {
  }

  /** Visit the record at `off` and everything below it; return its child pointers. A record that
      does not parse has none. */
  method VisitRecord(img: Image, buf: seq<byte>, off: nat, path: seq<byte>, depth: nat,
                     ghost kids: seq<Node>, ghost s: nat, ghost lo: int, ghost hi: int, ghost np: bool)
    returns (l: u16, r: u16, visits: seq<Visit>)
    requires 0 <= lo <= hi < |kids| && RangeOk(buf, kids, s, off, lo, hi)
    requires Holds(Partition(img), kids[Mid(lo, hi)], KidSector(kids, s, Mid(lo, hi)), np)
    requires SmallTables(kids[Mid(lo, hi)]) && SectorsFit(kids, s)
    ensures l == Pointer(Names(kids), lo, Mid(lo, hi) - 1) && r == Pointer(Names(kids), Mid(lo, hi) + 1, hi)
    ensures visits == KidVisits(kids, s, Mid(lo, hi), path, depth)
    decreases kids, 0
  {
    hide Partition, KidSector, Pointer, ParseRecord, ReadLr, RangeVisits, Listing, RangeOk, KidEntry, SectorsFit,
         SmallTables, Holds, Mid, TableSize, PathOf, Entry.IsDir;
    ghost var mid := Mid(lo, hi);
    RangeReads(buf, kids, s, off, lo, hi);
    UnfoldKid(kids, s, mid, path, depth);
    l, r, visits := NULL_CHILD, NULL_CHILD, [];
    var lr := ReadLr(buf, off);
    var parsed := ParseRecord(buf, off);
    if parsed.Some? {
      l, r := lr.0, lr.1;
      var e := parsed.value;
      var childPath := PathOf(path, e.name);
      visits := [Visit(e, childPath, depth)];
      if kids[mid].Dir? {
        DirEntry(kids, s, mid);
      }
      if e.IsDir() && e.fileSize > 0 {
        var below := Walk(img, e.startSector, e.fileSize, childPath, depth + 1, kids[mid], np);
        visits := visits + below;
      }
    }
  }

  /** Visit every entry of the directory table at `sector`, each before its children, the
      left half of a table before the right one. On an image that holds the tree `dir` the
      walk ends and visits exactly that tree. */
  method Walk(img: Image, sector: u32, size: u32, path: seq<byte>, depth: nat, ghost dir: Node, ghost np: bool)
    returns (visits: seq<Visit>)
    requires dir.Dir? && Holds(Partition(img), dir, sector, np)
    requires SmallTables(dir) && SectorsFit(dir.kids, sector)
    requires size == TableSize(Names(dir.kids))
    ensures visits == Listing(dir.kids, sector, path, depth)
    decreases dir.kids, 1
  {
    hide RangeVisits, Partition, RangeOk, StackOk, Pending, Work, TableHolds, TableSize, KidVisits, TableBytes,
         KidSector, Pointer, Listing, SectorsFit, Mid, ReadDirtable, LastKid;
    ghost var kids := dir.kids;
    visits := [];
    var buf := ReadDirtable(img, sector, size);
    DirtableReads(img, kids, sector);
    WalkStart(buf, kids, sector, path, depth);
    TableSizeOf(buf, kids, sector);
    DirSizeFits(dir);
    if buf != [] && !(size == 0 || buf[12] == PAD_BYTE) {
      var stack: seq<nat> := [0];
      ghost var ranges := [(0, |kids| - 1)];
      while stack != []
        invariant |stack| == |ranges| && StackOk(buf, kids, sector, stack, ranges)
        invariant visits + Pending(kids, sector, ranges, path, depth) == Listing(kids, sector, path, depth)
        decreases Work(ranges)
      {
        PopRange(buf, kids, sector, stack, ranges, path, depth);
        ghost var top := |ranges| - 1;
        ghost var (lo, hi) := ranges[top];
        var off := stack[|stack| - 1];
        stack, ranges := stack[..|stack| - 1], ranges[..top];
        var l, r, found := VisitRecord(img, buf, off, path, depth, kids, sector, lo, hi, np);
        HalvesOk(buf, kids, sector, off, lo, hi);
        UnfoldVisits(kids, sector, lo, hi, path, depth);
        Regroup(visits, found, RangeVisits(kids, sector, lo, Mid(lo, hi) - 1, path, depth),
                RangeVisits(kids, sector, Mid(lo, hi) + 1, hi, path, depth),
                Pending(kids, sector, ranges, path, depth));
        visits := visits + found;
        stack, ranges := PushChild(buf, r, stack, kids, sector, Mid(lo, hi) + 1, hi, ranges, path, depth);
        stack, ranges := PushChild(buf, l, stack, kids, sector, lo, Mid(lo, hi) - 1, ranges, path, depth);
      }
      assert ranges == [];
      PendingNone(kids, sector, path, depth);
    }
  }

  lemma PendingNone(kids: seq<Node>, s: nat, path: seq<byte>, depth: nat)
    ensures Pending(kids, s, [], path, depth) == []
  {
  }

  // ---- Extracting ----

  /** Copy one file out of the image in buffer-sized chunks; a short image ends the copy. */
  method ExtractFile(img: Image, startSector: u32, fileSize: u32) returns (data: seq<byte>)
    ensures data == ReadUpTo(img, startSector * 2048, fileSize)
  {
    hide Partition;
    data := [];
    var remaining: nat := fileSize;
    var more := true;
    while remaining > 0 && more
      invariant remaining <= fileSize
      invariant data == ReadUpTo(img, startSector * 2048, fileSize - remaining)
      invariant more ==> |data| + remaining == fileSize || ReadUpTo(img, startSector * 2048 + |data|, remaining) == []
      invariant !more ==> ReadUpTo(img, startSector * 2048, fileSize) == data
      decreases remaining, more
    {
      var chunk := if RW_BUF_SIZE < remaining then RW_BUF_SIZE else remaining;
      var got := ReadUpTo(img, startSector * 2048 + |data|, chunk);
      data := data + got;
      remaining := remaining - |got|;
      if got == [] {
        more := false;
      }
    }
  }

  /** The files among some visits, with the bytes the image has for them. */
  ghost function FilesOf(img: Image, visits: seq<Visit>): seq<(seq<byte>, seq<byte>)> {
    if visits == [] then []
    else
      var last := |visits| - 1;
      FilesOf(img, visits[..last]) + FileOf(img, visits[last])
  }

  ghost function FileOf(img: Image, v: Visit): seq<(seq<byte>, seq<byte>)> {
    if v.entry.IsDir() then []
    else [(v.path, ReadUpTo(img, v.entry.startSector * 2048, v.entry.fileSize))]
  }

  lemma {:induction false} FilesOfConcat(img: Image, a: seq<Visit>, b: seq<Visit>)
    ensures FilesOf(img, a + b) == FilesOf(img, a) + FilesOf(img, b)
    decreases |b|
  {
    hide FileOf;
    if b == [] {
      assert a + b == a;
    } else {
      FilesOfConcat(img, a, b[..|b| - 1]);
      assert (a + b)[..|a + b| - 1] == a + b[..|b| - 1];
    }
  }

  /** Extract every file of the image: its path in the image and its bytes. */
  method Extract(img: Image, ghost dir: Node, ghost np: bool) returns (files: seq<(seq<byte>, seq<byte>)>)
    requires dir.Dir? && Holds(Partition(img), dir, img.rootSector, np)
    requires SmallTables(dir) && SectorsFit(dir.kids, img.rootSector)
    requires img.rootSize == TableSize(Names(dir.kids))
    ensures files == FilesOf(img, Listing(dir.kids, img.rootSector, [], 0))
  {
    hide Partition, Listing, ReadUpTo, Holds, SectorsFit, TableSize;
    files := [];
    var visits := Walk(img, img.rootSector, img.rootSize, [], 0, dir, np);
    for i := 0 to |visits|
      invariant files == FilesOf(img, visits[..i])
    {
      var v := visits[i];
      assert visits[..i + 1][..i] == visits[..i];
      if !v.entry.IsDir() {
        var data := ExtractFile(img, v.entry.startSector, v.entry.fileSize);
        files := files + [(v.path, data)];
      }
    }
    assert visits[..|visits|] == visits;
  }

  /** The source's files in walk order, with the bytes written for them. */
  ghost function SourceFiles(kids: seq<Node>, lo: int, hi: int, path: seq<byte>, np: bool): seq<(seq<byte>, seq<byte>)>
    requires 0 <= lo <= hi + 1 <= |kids|
    decreases kids, 1, hi - lo + 1
  {
    if lo > hi then []
    else
      var mid := Mid(lo, hi);
      KidFiles(kids, mid, path, np)
      + (SourceFiles(kids, lo, mid - 1, path, np) + SourceFiles(kids, mid + 1, hi, path, np))
  }

  ghost function KidFiles(kids: seq<Node>, i: nat, path: seq<byte>, np: bool): seq<(seq<byte>, seq<byte>)>
    requires i < |kids|
    decreases kids, 0
  {
    var kid := kids[i];
    if kid.File? then [(PathOf(path, kid.name), Content(kid, np))]
    else SourceFiles(kid.kids, 0, |kid.kids| - 1, PathOf(path, kid.name), np)
  }

  /** A file's visit leads to exactly the bytes written for it. */
  lemma FileVisit(img: Image, kids: seq<Node>, s: nat, i: nat, path: seq<byte>, depth: nat, np: bool)
    requires i < |kids| && kids[i].File? && SectorsFit(kids, s)
    requires Holds(Partition(img), kids[i], KidSector(kids, s, i), np)
    ensures FilesOf(img, KidVisits(kids, s, i, path, depth)) == KidFiles(kids, i, path, np)
  {
    hide Partition, KidSector, Content, PathOf, SectorsFit;
    KidFits(kids, s, i);
    var v := Visit(KidEntry(kids, s, i), PathOf(path, kids[i].name), depth);
    assert KidVisits(kids, s, i, path, depth) == [v];
    assert [v][..0] == [];
    assert !v.entry.IsDir();
    assert v.entry.fileSize == |Content(kids[i], np)|;
    assert ReadUpTo(img, v.entry.startSector * 2048, v.entry.fileSize) == Content(kids[i], np);
  }

  lemma {:induction false} KidFilesMatch(img: Image, kids: seq<Node>, s: nat, i: nat, path: seq<byte>, depth: nat,
                                         np: bool)
    requires i < |kids| && SectorsFit(kids, s)
    requires Holds(Partition(img), kids[i], KidSector(kids, s, i), np)
    ensures FilesOf(img, KidVisits(kids, s, i, path, depth)) == KidFiles(kids, i, path, np)
    decreases kids, 0
  {
    hide Partition, KidSector, SectorsFit, KidEntry, PathOf, FileOf, Content, FilesOf, TableBytes;
    if kids[i].File? {
      FileVisit(img, kids, s, i, path, depth, np);
    } else {
      var kid, kidPath := kids[i], PathOf(path, kids[i].name);
      var v := Visit(KidEntry(kids, s, i), kidPath, depth);
      KidFits(kids, s, i);
      DirHasNoFile(img, kids, s, i, v);
      FilesOfConcat(img, [v], Listing(kid.kids, KidSector(kids, s, i), kidPath, depth + 1));
      FilesMatch(img, kid.kids, KidSector(kids, s, i), 0, |kid.kids| - 1, kidPath, depth + 1, np);
    }
  }

  lemma DirHasNoFile(img: Image, kids: seq<Node>, s: nat, i: nat, v: Visit)
    requires i < |kids| && kids[i].Dir? && v.entry == KidEntry(kids, s, i)
    ensures FilesOf(img, [v]) == []
  {
    assert [v][..0] == [];
  }

  lemma UnfoldFiles(img: Image, kids: seq<Node>, lo: int, hi: int, path: seq<byte>, np: bool)
    requires 0 <= lo <= hi + 1 <= |kids|
    ensures FilesOf(img, []) == []
    ensures lo > hi ==> SourceFiles(kids, lo, hi, path, np) == []
    ensures lo <= hi ==>
      SourceFiles(kids, lo, hi, path, np) ==
        KidFiles(kids, Mid(lo, hi), path, np)
        + (SourceFiles(kids, lo, Mid(lo, hi) - 1, path, np) + SourceFiles(kids, Mid(lo, hi) + 1, hi, path, np))
  {
  }

  /** Reading the files a walk finds gives the source's files. */
  lemma {:induction false} FilesMatch(img: Image, kids: seq<Node>, s: nat, lo: int, hi: int, path: seq<byte>,
                                      depth: nat, np: bool)
    requires 0 <= lo <= hi + 1 <= |kids| && SectorsFit(kids, s)
    requires forall i :: 0 <= i < |kids| ==> Holds(Partition(img), kids[i], KidSector(kids, s, i), np)
    ensures FilesOf(img, RangeVisits(kids, s, lo, hi, path, depth)) == SourceFiles(kids, lo, hi, path, np)
    decreases kids, 1, hi - lo + 1
  {
    hide Partition, KidSector, SectorsFit, Holds, KidVisits, RangeVisits, Mid, SourceFiles, KidFiles, FilesOf;
    UnfoldVisits(kids, s, lo, hi, path, depth);
    UnfoldFiles(img, kids, lo, hi, path, np);
    if lo > hi {
      UnfoldNoVisits(kids, s, lo, hi, path, depth);
    } else {
      var mid := Mid(lo, hi);
      var kid := KidVisits(kids, s, mid, path, depth);
      var left := RangeVisits(kids, s, lo, mid - 1, path, depth);
      var right := RangeVisits(kids, s, mid + 1, hi, path, depth);
      KidFilesMatch(img, kids, s, mid, path, depth, np);
      FilesMatch(img, kids, s, lo, mid - 1, path, depth, np);
      FilesMatch(img, kids, s, mid + 1, hi, path, depth, np);
      FilesOfConcat(img, left, right);
      FilesOfConcat(img, kid, left + right);
    }
  }

  /** On a created image the walk's files are the source's files. */
  lemma ExtractedFiles(img: Image, dir: Node, s: nat, np: bool)
    requires dir.Dir? && Holds(Partition(img), dir, s, np) && SectorsFit(dir.kids, s)
    ensures FilesOf(img, Listing(dir.kids, s, [], 0)) == SourceFiles(dir.kids, 0, |dir.kids| - 1, [], np)
  {
    hide Partition, KidSector, SectorsFit;
    FilesMatch(img, dir.kids, s, 0, |dir.kids| - 1, [], 0, np);
  }

  /** Without patching, a file is extracted exactly as it was read, unless its size does
      not fit the 32-bit size field. */
  lemma FileExact(n: Node)
    requires n.File? && n.size == |n.data|
    ensures Content(n, true) == n.data <==> |n.data| < 0x1_0000_0000
  {
    FillExact(n);
  }

  /** A file of 4 GiB is extracted as an empty one. */
  lemma FileLost()
    ensures var data: seq<byte> := seq(0x1_0000_0000, _ => 0);
      var n := File([0x41], |data|, data);
      Content(n, true) == [] && n.data != []
  {
    FillLoses();
  }
}
