/** Writing an image (xiso.cpp: write_files, write_dirtable, write_header,
    write_iso9660_stub, xiso_create). */
module XisoWriter {
  import opened Bytes
  import opened XisoLayout
  import opened XisoTree
  import opened XisoImage
  import opened XisoTable
  import opened XisoMedia
  import opened XisoDisc
  import opened XisoSort
  import opened XisoBuild

  // ---- File data ----

  /** Read the next `chunk` bytes of a file into the copy buffer; what a short file does
      not supply is filled with the pad byte. */
  method ReadChunk(data: seq<byte>, off: nat, buf: array<byte>, chunk: nat, ghost size: nat)
    requires chunk <= buf.Length && off + chunk <= size
    modifies buf
    ensures buf[..chunk] == Fill(data, size)[off..off + chunk]
  {
    ghost var filled := Fill(data, size);
    for i := 0 to chunk
      invariant buf[..i] == filled[off..off + i]
    {
      buf[i] := if off + i < |data| then data[off + i] else PAD_BYTE;
      assert buf[i] == filled[off + i];
      assert buf[..i + 1] == buf[..i] + [buf[i]];
      assert filled[off..off + i + 1] == filled[off..off + i] + [filled[off + i]];
    }
  }

  /** One chunk of a file's content is the filled chunk, patched when the file is. */
  lemma ContentChunk(n: Node, np: bool, k: nat, off: nat, chunk: nat)
    requires n.File? && off == k * 0x20_0000 && off < FileSize(n)
    requires chunk == if FileSize(n) - off < 0x20_0000 then FileSize(n) - off else 0x20_0000
    ensures var filled := Fill(n.data, FileSize(n))[off..off + chunk];
      Content(n, np)[off..off + chunk] == if IsXbe(n.name) && !np then PatchOne(filled) else filled
  {
    hide IsXbe, PatchOne, PatchChunks, Fill, FileSize;
    if IsXbe(n.name) && !np {
      ChunkPatched(Fill(n.data, FileSize(n)), k, off, chunk);
    }
  }

  lemma ShortUnpatched(data: seq<byte>)
    requires |data| < 8
    ensures PatchOne(data) == data
  {
  }

  /** Write one file's data to its sectors, chunk by chunk, and pad the last sector. */
  method WriteFile(child: BuildNode, out: OutStream, np: bool, ghost s: nat)
    requires child.Valid() && !child.isDir
    requires child.startSector == s && child.fileSize == FileSize(child.tree)
    modifies out
    ensures out.bytes == Put(old(out.bytes), s * 2048, FileWrite(child.tree, s, np).data)
  {
    hide IsXbe, PatchOne, PatchChunks, Fill, FileSize, Content, Put;
    ghost var n, base := child.tree, out.bytes;
    ghost var content := Content(n, np);
    var size := child.fileSize;
    var isXbe := IsXbe(child.name);
    out.Seek(child.startSector * 2048);
    var buf := new byte[RW_BUF_SIZE];
    var remaining := size;
    var fileOff := 0;
    ghost var k := 0;
    PutNothing(base, s * 2048);
    assert content[..0] == [];
    while remaining > 0
      invariant 0 <= fileOff && 0 <= remaining && fileOff + remaining == size == |content|
      invariant remaining > 0 ==> fileOff == k * 0x20_0000
      invariant out.bytes == Put(base, s * 2048, content[..fileOff]) && out.pos == s * 2048 + fileOff
    {
      var chunk := if RW_BUF_SIZE < remaining then RW_BUF_SIZE else remaining;
      ReadChunk(child.data, fileOff, buf, chunk, size);
      ContentChunk(n, np, k, fileOff, chunk);
      if isXbe && !np {
        if chunk >= 8 {
          PatchBuffer(buf, chunk);
        } else {
          ShortUnpatched(buf[..chunk]);
        }
      }
      out.WriteAll(buf[..chunk]);
      NextPiece(base, s * 2048, content, fileOff, chunk);
      remaining := remaining - chunk;
      fileOff := fileOff + chunk;
      k := k + 1;
    }
    assert content[..size] == content;
    WritePad(out, size, base, s * 2048, content);
  }

  /** Pad the last sector of a file of `size` bytes. */
  method WritePad(out: OutStream, size: nat, ghost base: seq<byte>, ghost at: nat, ghost content: seq<byte>)
    requires out.bytes == Put(base, at, content) && out.pos == at + |content| && |content| == size
    modifies out
    ensures out.bytes == Put(base, at, content + Padding(SectorPad(size)))
  {
    hide Put, SectorPad;
    PadIs(size);
    var pad := 2048 - size % 2048;
    if pad != 2048 {
      out.WriteAll(Padding(pad));
      PutAdjacent(base, at, content, Padding(pad));
    } else {
      assert content + Padding(0) == content;
    }
  }

  lemma PadIs(size: nat)
    ensures SectorPad(size) == if size % 2048 == 0 then 0 else 2048 - size % 2048
  {
  }

  lemma PutNothing(img: seq<byte>, off: nat)
    ensures Put(img, off, []) == img
  {
  }

  lemma NextPiece(img: seq<byte>, off: nat, content: seq<byte>, at: nat, len: nat)
    requires at + len <= |content|
    ensures Put(Put(img, off, content[..at]), off + at, content[at..at + len]) == Put(img, off, content[..at + len])
  {
    hide Put;
    PutAdjacent(img, off, content[..at], content[at..at + len]);
    assert content[..at] + content[at..at + len] == content[..at + len];
  }

  lemma ApplyOne(ws: seq<Write>, w: Write, base: seq<byte>)
    ensures Apply(ws + [w], base) == Put(Apply(ws, base), w.off, w.data)
  {
    assert (ws + [w])[..|ws|] == ws;
  }

  /** Write the files among the children `lo..hi`. */
  method WriteRange(node: BuildNode, lo: int, hi: int, out: OutStream, np: bool, ghost s: nat, ghost base: seq<byte>)
    requires node.Valid() && node.isDir && node.Assigned(s)
    requires 0 <= lo <= hi + 1 <= |node.children| == |node.tree.kids|
    requires out.bytes == Apply(DirectFiles(node.tree.kids, s, np, lo), base)
    modifies out
    ensures out.bytes == Apply(DirectFiles(node.tree.kids, s, np, hi + 1), base)
    decreases hi - lo + 1
  {
    hide Apply, Put, FileWrite, KidSector, RecordOffset, BuildNode.Assigned, DirectFiles;
    if lo <= hi {
      var mid := Mid(lo, hi);
      ghost var kids := node.tree.kids;
      WriteRange(node, lo, mid - 1, out, np, s, base);
      var child := node.children[mid];
      KidAssigned(node, s, mid);
      if !child.isDir {
        WriteFile(child, out, np, KidSector(kids, s, mid));
        FileWriteOff(kids[mid], KidSector(kids, s, mid), np);
        ApplyOne(DirectFiles(kids, s, np, mid), FileWrite(kids[mid], KidSector(kids, s, mid), np), base);
      }
      MoreDirectFiles(kids, s, np, mid);
      WriteRange(node, mid + 1, hi, out, np, s, base);
    }
  }

  lemma FileWriteOff(n: Node, s: nat, np: bool)
    requires n.File?
    ensures FileWrite(n, s, np).off == s * 2048
  {
  }

  lemma MoreDirectFiles(kids: seq<Node>, s: nat, np: bool, i: nat)
    requires i < |kids|
    ensures kids[i].File? ==>
      DirectFiles(kids, s, np, i + 1) == DirectFiles(kids, s, np, i) + [FileWrite(kids[i], KidSector(kids, s, i), np)]
    ensures kids[i].Dir? ==> DirectFiles(kids, s, np, i + 1) == DirectFiles(kids, s, np, i)
  {
  }

  lemma KidAssigned(node: BuildNode, s: nat, i: nat)
    requires node.Valid() && node.isDir && node.Assigned(s) && i < |node.children| == |node.tree.kids|
    ensures var child, k := node.children[i], KidSector(node.tree.kids, s, i);
      && child.Valid() && child.tree == node.tree.kids[i] && child.name == child.tree.name
      && (child.isDir <==> child.tree.Dir?)
      && child.Assigned(k) && child.startSector == k && child.fileSize == SizeOf(child.tree)
      && child.recordOffset == RecordOffset(Names(node.tree.kids), i)
  {
  }

  /** Write all file data below a directory: its own files first, then its subdirectories. */
  method WriteFiles(node: BuildNode, out: OutStream, np: bool, ghost s: nat)
    requires node.Valid() && node.isDir && node.Assigned(s)
    modifies out
    ensures out.bytes == Apply(AllFiles(node.tree.kids, s, np), old(out.bytes))
    decreases node.tree
  {
    hide Apply, Put, FileWrite, KidSector, RecordOffset, BuildNode.Assigned, AllFiles, DirectFiles, SubFiles;
    ghost var kids, base := node.tree.kids, out.bytes;
    NoWrites(kids, s, np, base);
    NoSubFiles(kids, s, np);
    WriteRange(node, 0, |node.children| - 1, out, np, s, base);
    ghost var direct := DirectFiles(kids, s, np, |kids|);
    assert direct + [] == direct;
    for i := 0 to |node.children|
      invariant out.bytes == Apply(direct + SubFiles(kids, s, np, i), base)
    {
      var child := node.children[i];
      KidAssigned(node, s, i);
      if child.isDir {
        ghost var sub := AllFiles(kids[i].kids, KidSector(kids, s, i), np);
        WriteFiles(child, out, np, KidSector(kids, s, i));
        ApplyConcat(direct + SubFiles(kids, s, np, i), sub, base);
        assert direct + SubFiles(kids, s, np, i) + sub == direct + (SubFiles(kids, s, np, i) + sub);
      }
      MoreSubFiles(kids, s, np, i);
    }
    AllFilesAre(kids, s, np);
  }

  lemma NoWrites(kids: seq<Node>, s: nat, np: bool, base: seq<byte>)
    ensures Apply(DirectFiles(kids, s, np, 0), base) == base
  {
  }

  lemma NoSubFiles(kids: seq<Node>, s: nat, np: bool)
    ensures SubFiles(kids, s, np, 0) == []
  {
  }

  lemma AllFilesAre(kids: seq<Node>, s: nat, np: bool)
    ensures AllFiles(kids, s, np) == DirectFiles(kids, s, np, |kids|) + SubFiles(kids, s, np, |kids|)
  {
  }

  lemma MoreSubFiles(kids: seq<Node>, s: nat, np: bool, i: nat)
    requires i < |kids|
    ensures kids[i].Dir? ==>
      SubFiles(kids, s, np, i + 1) == SubFiles(kids, s, np, i) + AllFiles(kids[i].kids, KidSector(kids, s, i), np)
    ensures kids[i].File? ==> SubFiles(kids, s, np, i + 1) == SubFiles(kids, s, np, i)
  {
  }

  // ---- Directory tables ----

  lemma SpliceAdjacent(t: seq<byte>, off: nat, a: seq<byte>, b: seq<byte>)
    requires off + |a| + |b| <= |t|
    ensures Splice(Splice(t, off, a), off + |a|, b) == Splice(t, off, a + b)
  {
  }

  lemma SpliceIsPut(t: seq<byte>, off: nat, data: seq<byte>)
    requires off + |data| <= |t|
    ensures Put(t, off, data) == Splice(t, off, data)
  {
    if data == [] {
      assert Splice(t, off, data) == t;
    }
  }

  /** Copy bytes into the buffer. */
  method CopyInto(buf: array<byte>, off: nat, data: seq<byte>)
    requires off + |data| <= buf.Length
    modifies buf
    ensures buf[..] == Splice(old(buf[..]), off, data)
  {
    for i := 0 to |data|
      invariant forall k :: 0 <= k < buf.Length ==> buf[k] == if off <= k < off + i then data[k - off] else old(buf[k])
    {
      buf[off + i] := data[i];
    }
  }

  /** Store one record into the table buffer. */
  method StoreRecord(buf: array<byte>, off: nat, l: u16, r: u16, start: u32, size: u32, isDir: bool, name: Name)
    requires off + 14 + |name| <= buf.Length
    modifies buf
    ensures buf[..] == Put(old(buf[..]), off, RecordBytes(l, r, start, size, isDir, name))
  {
    hide Splice, Le16, Le32, Attributes, Put;
    ghost var was := buf[..];
    WrLe16(buf, off, l);
    WrLe16(buf, off + 2, r);
    SpliceAdjacent(was, off, Le16(l), Le16(r));
    WrLe32(buf, off + 4, start);
    SpliceAdjacent(was, off, Le16(l) + Le16(r), Le32(start));
    WrLe32(buf, off + 8, size);
    SpliceAdjacent(was, off, Le16(l) + Le16(r) + Le32(start), Le32(size));
    CopyInto(buf, off + 12, [Attributes(isDir), |name|]);
    SpliceAdjacent(was, off, Le16(l) + Le16(r) + Le32(start) + Le32(size), [Attributes(isDir), |name|]);
    CopyInto(buf, off + 14, name);
    SpliceAdjacent(was, off, Le16(l) + Le16(r) + Le32(start) + Le32(size) + [Attributes(isDir), |name|], name);
    SpliceIsPut(was, off, RecordBytes(l, r, start, size, isDir, name));
  }

  /** Store the records of the children `lo..hi`, each pointing at its two halves. */
  method WriteNode(node: BuildNode, lo: int, hi: int, buf: array<byte>, ghost s: nat)
    requires node.Valid() && node.isDir && node.Assigned(s)
    requires 0 <= lo <= hi + 1 <= |node.children| == |node.tree.kids|
    requires buf.Length == TableSize(Names(node.tree.kids))
    modifies buf
    ensures buf[..] == Apply(InPrefixOrder(KidWrites(node.tree.kids, s), lo, hi), old(buf[..]))
    decreases hi - lo + 1
  {
    hide Apply, Put, KidSector, RecordOffset, BuildNode.Assigned, InPrefixOrder, RecordBytes, Mid, SizeOf, TableSize,
         KidWrites;
    ghost var kids, was := node.tree.kids, buf[..];
    NoRecords(kids, s, lo, hi, was);
    if lo <= hi {
      var mid := Mid(lo, hi);
      var n := node.children[mid];
      KidAssigned(node, s, mid);
      var off := n.recordOffset;
      RecordInTable(Names(kids), mid);
      var l := PAD_SHORT;
      if lo <= mid - 1 {
        KidAssigned(node, s, Mid(lo, mid - 1));
        l := node.children[Mid(lo, mid - 1)].recordOffset / 4 % 0x1_0000;
      }
      var r := PAD_SHORT;
      if mid + 1 <= hi {
        KidAssigned(node, s, Mid(mid + 1, hi));
        r := node.children[Mid(mid + 1, hi)].recordOffset / 4 % 0x1_0000;
      }
      StoreRecord(buf, off, l, r, n.startSector % 0x1_0000_0000, n.fileSize % 0x1_0000_0000, n.isDir, n.name);
      RecordStored(kids, s, lo, hi, l, r);
      ghost var own := buf[..];
      WriteNode(node, lo, mid - 1, buf, s);
      WriteNode(node, mid + 1, hi, buf, s);
      HalvesStored(kids, s, lo, hi, was, own);
    }
  }

  lemma NoRecords(kids: seq<Node>, s: nat, lo: int, hi: int, was: seq<byte>)
    requires 0 <= lo <= hi + 1 <= |kids|
    ensures lo > hi ==> Apply(InPrefixOrder(KidWrites(kids, s), lo, hi), was) == was
  {
  }

  lemma RecordStored(kids: seq<Node>, s: nat, lo: int, hi: int, l: u16, r: u16)
    requires 0 <= lo <= hi < |kids|
    requires l == Pointer(Names(kids), lo, Mid(lo, hi) - 1) && r == Pointer(Names(kids), Mid(lo, hi) + 1, hi)
    ensures var mid := Mid(lo, hi);
      KidWrites(kids, s)(lo, hi) == Write(RecordOffset(Names(kids), mid),
        RecordBytes(l, r, KidSector(kids, s, mid) % 0x1_0000_0000, SizeOf(kids[mid]) % 0x1_0000_0000,
                    kids[mid].Dir?, kids[mid].name))
  {
    hide RecordBytes, KidSector, SizeOf, Pointer, RecordOffset;
  }

  /** Storing a record and then its two halves stores the range. */
  lemma HalvesStored(kids: seq<Node>, s: nat, lo: int, hi: int, was: seq<byte>, own: seq<byte>)
    requires 0 <= lo <= hi < |kids|
    requires var w := KidWrites(kids, s)(lo, hi); own == Put(was, w.off, w.data)
    ensures var rec, mid := KidWrites(kids, s), Mid(lo, hi);
      Apply(InPrefixOrder(rec, lo, hi), was) ==
        Apply(InPrefixOrder(rec, mid + 1, hi), Apply(InPrefixOrder(rec, lo, mid - 1), own))
  {
    hide KidWrites, Put, Mid;
    var rec, mid := KidWrites(kids, s), Mid(lo, hi);
    var w, left, right := rec(lo, hi), InPrefixOrder(rec, lo, mid - 1), InPrefixOrder(rec, mid + 1, hi);
    ApplyOne([], w, was);
    assert [] + [w] == [w];
    ApplyConcat([w], left + right, was);
    ApplyConcat(left, right, own);
  }

  /** Write a directory's table and the tables of everything below it. */
  method WriteDirtable(node: BuildNode, out: OutStream, ghost s: nat)
    requires node.Valid() && node.isDir && node.Assigned(s)
    modifies out, (node.repr - {node})`recordOffset
    ensures node.Assigned(s)
    ensures out.bytes == Apply(AllTables(node.tree.kids, s), old(out.bytes))
    decreases node.tree, 1
  {
    hide Apply, Put, KidSector, RecordOffset, BuildNode.Assigned, AllTables, TableWrite;
    ghost var base := out.bytes;
    WriteTable(node, out, s);
    WriteSubTables(node, out, s);
    ApplyConcat([TableWrite(node.tree.kids, s)], SubTables(node.tree.kids, s, |node.tree.kids|), base);
    AllTablesAre(node.tree.kids, s);
  }

  lemma AllTablesAre(kids: seq<Node>, s: nat)
    ensures AllTables(kids, s) == [TableWrite(kids, s)] + SubTables(kids, s, |kids|)
  {
  }

  /** Write the directory's own table. */
  method WriteTable(node: BuildNode, out: OutStream, ghost s: nat)
    requires node.Valid() && node.isDir && node.Assigned(s)
    modifies out, node.children`recordOffset
    ensures node.Assigned(s)
    ensures out.bytes == Apply([TableWrite(node.tree.kids, s)], old(out.bytes))
  {
    hide Put, KidSector, RecordOffset, BuildNode.Assigned, TableSize, InPrefixOrder, KidWrites, TableSectors;
    ghost var kids, base := node.tree.kids, out.bytes;
    node.KidsDistinct();
    var dirSize := node.RecalcDirSize(s);
    node.KidsAssigned(s);
    TableAlloc(node.tree, s);
    var alloc := (dirSize + 2047) / 2048 * 2048;
    if alloc == 0 {
      alloc := 2048;
    }
    var buf := new byte[alloc](_ => PAD_BYTE);
    assert buf[..] == Padding(TableSize(Names(kids)));
    WriteNode(node, 0, |node.children| - 1, buf, s);
    out.Seek(node.startSector * 2048);
    out.WriteAll(buf[..]);
    TableApplied(kids, s, base);
  }

  lemma TableAlloc(dir: Node, s: nat)
    requires dir.Dir?
    ensures (TableSize(Names(dir.kids)) + 2047) / 2048 * 2048 == TableSize(Names(dir.kids)) > 0
  {
    KidsRange(dir, s);
    TableSectorsPositive(Names(dir.kids));
  }

  lemma TableApplied(kids: seq<Node>, s: nat, base: seq<byte>)
    ensures Apply([TableWrite(kids, s)], base) == Put(base, s * 2048, TableBytes(kids, s))
  {
    ApplyOne([], TableWrite(kids, s), base);
    assert [] + [TableWrite(kids, s)] == [TableWrite(kids, s)];
  }

  /** Write the tables of the subdirectories, one after the other. */
  method WriteSubTables(node: BuildNode, out: OutStream, ghost s: nat)
    requires node.Valid() && node.isDir && node.Assigned(s)
    modifies out, (node.repr - {node})`recordOffset
    ensures node.Assigned(s)
    ensures out.bytes == Apply(SubTables(node.tree.kids, s, |node.tree.kids|), old(out.bytes))
    decreases node.tree, 0
  {
    hide Apply, Put, KidSector, RecordOffset, BuildNode.Assigned, SubTables, AllTables, TableSize;
    ghost var kids, base := node.tree.kids, out.bytes;
    NoSubTables(kids, s, base);
    node.KidsDisjoint();
    node.KidsDistinct();
    for i := 0 to |node.children|
      invariant node.Assigned(s)
      invariant out.bytes == Apply(SubTables(kids, s, i), base)
    {
      var child := node.children[i];
      KidAssigned(node, s, i);
      MoreSubTables(kids, s, i);
      if child.isDir {
        node.KidsAssigned(s);
        WriteDirtable(child, out, KidSector(kids, s, i));
        node.DirAssigned(s);
        ApplyConcat(SubTables(kids, s, i), AllTables(kids[i].kids, KidSector(kids, s, i)), base);
      }
    }
  }

  lemma NoSubTables(kids: seq<Node>, s: nat, base: seq<byte>)
    ensures Apply(SubTables(kids, s, 0), base) == base
  {
  }

  lemma MoreSubTables(kids: seq<Node>, s: nat, i: nat)
    requires i < |kids|
    ensures kids[i].Dir? ==>
      SubTables(kids, s, i + 1) == SubTables(kids, s, i) + AllTables(kids[i].kids, KidSector(kids, s, i))
    ensures kids[i].File? ==> SubTables(kids, s, i + 1) == SubTables(kids, s, i)
  {
  }

  // ---- The whole image ----

  method WriteHeader(out: OutStream, rootSector: u32, rootSize: u32)
    modifies out
    ensures out.bytes == Put(old(out.bytes), HEADER_OFFSET, HeaderBytes(rootSector, rootSize))
  {
    hide Put;
    var hdr := MAGIC + Le32(rootSector) + Le32(rootSize) + Zeros(8) + Zeros(0x7C8) + MAGIC;
    out.Seek(HEADER_OFFSET);
    out.WriteAll(hdr);
  }

  method WriteStub(out: OutStream)
    modifies out
    ensures out.bytes == WithStub(old(out.bytes))
  {
    hide Put, StubSector;
    out.Seek(STUB_OFFSET);
    out.WriteAll(StubSector(0x01));
    out.WriteAll(StubSector(0xFF));
  }

  lemma PutAtEnd(img: seq<byte>, data: seq<byte>)
    ensures Put(img, |img|, data) == img + data
  {
  }

  /** Pad the image to a multiple of 64 KiB. */
  method WritePadding(out: OutStream)
    modifies out
    ensures out.bytes == PadTo64K(old(out.bytes))
  {
    hide Put;
    ghost var img := out.bytes;
    out.SeekEnd();
    var pad := (0x10000 - out.pos % 0x10000) % 0x10000;
    PutAtEnd(img, Padding(pad));
    if pad > 0 {
      out.WriteAll(Padding(pad));
    }
  }

  /** The tree meets the limits of the image format. */
  ghost predicate Fits(root: Node) {
    root.Dir? && SmallTables(root) && SectorsFit(root.kids, ROOT_SECTOR)
  }

  lemma RootTableSmall(root: Node)
    requires Fits(root)
    ensures root.Dir? && TableSize(Names(root.kids)) <= MAX_TABLE
  {
    hide SectorsFit, TableSize;
  }

  /** Write a laid-out tree: header, file data, tables, padding and stub. */
  method WriteImage(root: BuildNode, rootDirSize: nat, out: OutStream, noMediaEnable: bool)
    requires root.Valid() && root.isDir && root.Assigned(ROOT_SECTOR)
    requires rootDirSize == TableSize(Names(root.tree.kids)) <= MAX_TABLE
    requires out.bytes == []
    modifies out, (root.repr - {root})`recordOffset
    ensures out.bytes == DiscImage(root.tree.kids, noMediaEnable)
  {
    hide Put, Apply, AllFiles, AllTables, HeaderBytes, PadTo64K, WithStub, TableSize, BuildNode.Assigned;
    WriteHeader(out, ROOT_SECTOR, rootDirSize);
    TwoPasses(root.tree.kids, noMediaEnable, out.bytes);
    WriteFiles(root, out, noMediaEnable, ROOT_SECTOR);
    WriteDirtable(root, out, ROOT_SECTOR);
    WritePadding(out);
    WriteStub(out);
  }

  /** If the stable order of a source meets the limits, so does every order its sort may leave. */
  lemma FitsArranged(src: Node, root: Node)
    requires Fits(SortTree(src)) && SortedAs(src, root)
    ensures Fits(root)
  {
    hide SmallTables, SpanTo, TableSectors, Sorted, ArrangesKids, Span, SortTree;
    SizesArranged(src, root);
    if src.Dir? {
      SortTreeArranges(src);
      ArrangedSize(src.kids, |src.kids|, SortTree(src).kids);
    }
  }

  /** Create an image from a host directory: the image of some sorted order of its entries. */
  method Create(src: Node, noMediaEnable: bool) returns (image: seq<byte>, ghost root: Node)
    requires Fits(SortTree(src))
    ensures SortedAs(src, root) && Fits(root)
    ensures image == DiscImage(root.kids, noMediaEnable)
  {
    hide DiscImage, SortTree, TableSize, BuildNode.Assigned, BuildNode.Scanned, SectorsFit, Span, Fits, KidSector,
         RecordOffset, SmallTables, SortedAs;
    var node := BuildTree(src);
    root := node.tree;
    FitsArranged(src, root);
    RootTableSmall(root);
    var nextSector := node.AssignSectors(ROOT_SECTOR);
    node.KidsAssigned(ROOT_SECTOR);
    var rootDirSize := node.RecalcDirSize(ROOT_SECTOR);
    var out := new OutStream();
    out.Seek(HEADER_OFFSET + 2048 + 2048);
    WriteImage(node, rootDirSize, out, noMediaEnable);
    image := out.bytes;
  }

  lemma TwoPasses(kids: seq<Node>, np: bool, img: seq<byte>)
    requires img == Put([], HeaderWrite(kids).off, HeaderWrite(kids).data)
    ensures Apply(AllTables(kids, ROOT_SECTOR), Apply(AllFiles(kids, ROOT_SECTOR, np), img)) ==
      Apply(BodyWrites(kids, np), [])
  {
    hide Put, HeaderWrite, AllFiles, AllTables;
    var h, files, tables := HeaderWrite(kids), AllFiles(kids, ROOT_SECTOR, np), AllTables(kids, ROOT_SECTOR);
    ApplyConcat(files, tables, img);
    ApplyOne([], h, []);
    assert [] + [h] == [h];
    ApplyConcat([h], files + tables, []);
  }
}
