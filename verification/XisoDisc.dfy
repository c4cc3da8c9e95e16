/** What a finished image contains, and why every part of it survives the other writes
    (xiso.cpp: write_files, write_dirtable, write_header, xiso_create). */
module XisoDisc {
  import opened Bytes
  import opened XisoLayout
  import opened XisoTree
  import opened XisoImage
  import opened XisoTable
  import opened XisoMedia

  const ROOT_SECTOR: nat := 0x108
  const HEADER_OFFSET: nat := 0x10000
  const STUB_OFFSET: nat := 0x8000

  // ---- The writes of one tree ----

  /** The bytes a file's extent starts with. */
  function Content(n: Node, noMediaEnable: bool): (r: seq<byte>)
    requires n.File?
    ensures |r| == FileSize(n)
  {
    var data := Fill(n.data, FileSize(n));
    if IsXbe(n.name) && !noMediaEnable then PatchChunks(data) else data
  }

  function SectorPad(size: nat): nat {
    (2048 - size % 2048) % 2048
  }

  ghost function FileWrite(n: Node, s: nat, np: bool): Write
    requires n.File?
  {
    Write(s * 2048, Content(n, np) + Padding(SectorPad(FileSize(n))))
  }

  ghost function TableWrite(kids: seq<Node>, s: nat): Write {
    Write(s * 2048, TableBytes(kids, s))
  }

  /** The file writes of the first `i` children, subdirectories not included. */
  ghost function DirectFiles(kids: seq<Node>, s: nat, np: bool, i: nat): seq<Write>
    requires i <= |kids|
  {
    if i == 0 then []
    else
      DirectFiles(kids, s, np, i - 1) +
      if kids[i - 1].File? then [FileWrite(kids[i - 1], KidSector(kids, s, i - 1), np)] else []
  }

  /** All file writes below the first `i` children's subdirectories. */
  ghost function SubFiles(kids: seq<Node>, s: nat, np: bool, i: nat): seq<Write>
    requires i <= |kids|
    decreases kids, i
  {
    if i == 0 then []
    else
      SubFiles(kids, s, np, i - 1) +
      if kids[i - 1].Dir? then AllFiles(kids[i - 1].kids, KidSector(kids, s, i - 1), np) else []
  }

  ghost function AllFiles(kids: seq<Node>, s: nat, np: bool): seq<Write>
    decreases kids
  {
    DirectFiles(kids, s, np, |kids|) + SubFiles(kids, s, np, |kids|)
  }

  ghost function SubTables(kids: seq<Node>, s: nat, i: nat): seq<Write>
    requires i <= |kids|
    decreases kids, i
  {
    if i == 0 then []
    else
      SubTables(kids, s, i - 1) +
      if kids[i - 1].Dir? then AllTables(kids[i - 1].kids, KidSector(kids, s, i - 1)) else []
  }

  ghost function AllTables(kids: seq<Node>, s: nat): seq<Write>
    decreases kids
  {
    [TableWrite(kids, s)] + SubTables(kids, s, |kids|)
  }

  /** All writes of a subtree, as a set. */
  ghost function TreeWrites(n: Node, s: nat, np: bool): set<Write>
    decreases n
  {
    if n.File? then {FileWrite(n, s, np)}
    else {TableWrite(n.kids, s)} + KidWritesTo(n.kids, s, np, |n.kids|)
  }

  ghost function KidWritesTo(kids: seq<Node>, s: nat, np: bool, i: nat): set<Write>
    requires i <= |kids|
    decreases kids, i
  {
    if i == 0 then {}
    else KidWritesTo(kids, s, np, i - 1) + TreeWrites(kids[i - 1], KidSector(kids, s, i - 1), np)
  }

  lemma ElemsConcat(a: seq<Write>, b: seq<Write>)
    ensures Elems(a + b) == Elems(a) + Elems(b)
  {
  }

  /** The writer's passes, files first and tables second, make exactly the tree's writes. */
  lemma {:induction false} PassesCover(n: Node, s: nat, np: bool)
    requires n.Dir?
    ensures Elems(AllFiles(n.kids, s, np)) + Elems(AllTables(n.kids, s)) == TreeWrites(n, s, np)
    decreases n
  {
    var kids := n.kids;
    PassesCoverTo(kids, s, np, |kids|);
    ElemsConcat(DirectFiles(kids, s, np, |kids|), SubFiles(kids, s, np, |kids|));
    ElemsConcat([TableWrite(kids, s)], SubTables(kids, s, |kids|));
    assert Elems([TableWrite(kids, s)]) == {TableWrite(kids, s)};
  }

  lemma {:induction false} PassesCoverTo(kids: seq<Node>, s: nat, np: bool, i: nat)
    requires i <= |kids|
    ensures Passes(kids, s, np, i) == KidWritesTo(kids, s, np, i)
    decreases kids, i
  {
    hide FileWrite, TableWrite, KidSector, TreeWrites, Passes, AllFiles, AllTables, Elems;
    if i == 0 {
      NoPasses(kids, s, np);
    } else {
      PassesCoverTo(kids, s, np, i - 1);
      if kids[i - 1].Dir? {
        PassesCover(kids[i - 1], KidSector(kids, s, i - 1), np);
      }
      OneMoreKid(kids, s, np, i);
    }
  }

  lemma NoPasses(kids: seq<Node>, s: nat, np: bool)
    ensures Passes(kids, s, np, 0) == {}
  {
  }

  ghost function Passes(kids: seq<Node>, s: nat, np: bool, i: nat): set<Write>
    requires i <= |kids|
  {
    Elems(DirectFiles(kids, s, np, i)) + Elems(SubFiles(kids, s, np, i)) + Elems(SubTables(kids, s, i))
  }

  lemma OneMoreKid(kids: seq<Node>, s: nat, np: bool, i: nat)
    requires 0 < i <= |kids|
    requires kids[i - 1].Dir? ==>
      Elems(AllFiles(kids[i - 1].kids, KidSector(kids, s, i - 1), np))
      + Elems(AllTables(kids[i - 1].kids, KidSector(kids, s, i - 1)))
      == TreeWrites(kids[i - 1], KidSector(kids, s, i - 1), np)
    ensures Passes(kids, s, np, i) ==
      Passes(kids, s, np, i - 1) + TreeWrites(kids[i - 1], KidSector(kids, s, i - 1), np)
  {
    if kids[i - 1].File? {
      OneMoreFile(kids, s, np, i);
    } else {
      OneMoreDir(kids, s, np, i);
    }
  }

  lemma OneMoreFile(kids: seq<Node>, s: nat, np: bool, i: nat)
    requires 0 < i <= |kids| && kids[i - 1].File?
    ensures Passes(kids, s, np, i) ==
      Passes(kids, s, np, i - 1) + TreeWrites(kids[i - 1], KidSector(kids, s, i - 1), np)
  {
    var w := FileWrite(kids[i - 1], KidSector(kids, s, i - 1), np);
    ElemsConcat(DirectFiles(kids, s, np, i - 1), [w]);
    assert Elems([w]) == {w};
  }

  lemma OneMoreDir(kids: seq<Node>, s: nat, np: bool, i: nat)
    requires 0 < i <= |kids| && kids[i - 1].Dir?
    ensures var sub, k := kids[i - 1].kids, KidSector(kids, s, i - 1);
      Passes(kids, s, np, i) == Passes(kids, s, np, i - 1) + (Elems(AllFiles(sub, k, np)) + Elems(AllTables(sub, k)))
  {
    var sub, k := kids[i - 1].kids, KidSector(kids, s, i - 1);
    ElemsConcat(SubFiles(kids, s, np, i - 1), AllFiles(sub, k, np));
    ElemsConcat(SubTables(kids, s, i - 1), AllTables(sub, k));
  }

  /** The write stays inside sectors `from` to `to`. */
  ghost predicate Inside(w: Write, from: nat, to: nat) {
    from * 2048 <= w.off && w.off + |w.data| <= to * 2048
  }

  lemma FileWriteInside(n: Node, s: nat, np: bool)
    requires n.File?
    ensures Inside(FileWrite(n, s, np), s, s + OwnSectors(n))
  {
    var size := FileSize(n);
    assert size + SectorPad(size) <= 2048 * FileSectors(size);
  }

  lemma TableWriteInside(kids: seq<Node>, s: nat)
    ensures Inside(TableWrite(kids, s), s, s + TableSectors(Names(kids)))
    ensures TableWrite(kids, s).data != []
  {
    TableBytesHold(kids, s);
    TableSectorsPositive(Names(kids));
  }

  lemma InsideWider(w: Write, from: nat, to: nat, from': nat, to': nat)
    requires Inside(w, from, to) && from' <= from && to <= to'
    ensures Inside(w, from', to')
  {
  }

  /** Every write of a subtree stays inside the sectors allocated to that subtree. */
  lemma {:induction false} TreeInside(n: Node, s: nat, np: bool, w: Write)
    requires w in TreeWrites(n, s, np)
    ensures Inside(w, s, s + Span(n))
    decreases n
  {
    hide FileWrite, TableWrite, Inside, KidSector;
    if n.File? {
      FileWriteInside(n, s, np);
    } else if w == TableWrite(n.kids, s) {
      TableWriteInside(n.kids, s);
      KidSectorRange(n.kids, s, n.name, 0);
      InsideWider(w, s, s + TableSectors(Names(n.kids)), s, s + Span(n));
    } else {
      var i := KidsInside(n.kids, s, np, |n.kids|, w);
      KidSectorRange(n.kids, s, n.name, i);
      KidSectorRange(n.kids, s, n.name, i + 1);
      InsideWider(w, KidSector(n.kids, s, i), KidSector(n.kids, s, i + 1), s, s + Span(n));
    }
  }

  /** A child's write stays inside the sectors of that child. */
  lemma {:induction false} KidsInside(kids: seq<Node>, s: nat, np: bool, n: nat, w: Write) returns (i: nat)
    requires n <= |kids| && w in KidWritesTo(kids, s, np, n)
    ensures i < n && w in TreeWrites(kids[i], KidSector(kids, s, i), np)
    ensures Inside(w, KidSector(kids, s, i), KidSector(kids, s, i + 1))
    decreases kids, n
  {
    hide FileWrite, TableWrite, KidSector, TreeWrites, Span, Inside;
    if w in KidWritesTo(kids, s, np, n - 1) {
      i := KidsInside(kids, s, np, n - 1, w);
    } else {
      i := n - 1;
      TreeInside(kids[i], KidSector(kids, s, i), np, w);
      KidSectorNext(kids, s, i);
    }
  }

  /** Writes in sector ranges that follow each other cover no common byte. */
  lemma RangesApart(v: Write, w: Write, p: nat, from: nat, mid: nat, mid': nat, to: nat)
    requires Inside(v, from, mid) && mid <= mid' && Inside(w, mid', to)
    ensures !(Covers(v, p) && Covers(w, p))
  {
  }

  /** Writes of different children cover no common byte. */
  lemma KidsApart(kids: seq<Node>, s: nat, i: nat, j: nat, v: Write, w: Write, p: nat)
    requires i < j < |kids|
    requires Inside(v, KidSector(kids, s, i), KidSector(kids, s, i + 1))
    requires Inside(w, KidSector(kids, s, j), KidSector(kids, s, j + 1))
    ensures !(Covers(v, p) && Covers(w, p))
  {
    SpanToMonotone(kids, i + 1, j);
    RangesApart(v, w, p, KidSector(kids, s, i), KidSector(kids, s, i + 1), KidSector(kids, s, j),
                KidSector(kids, s, j + 1));
  }

  /** The directory's own table and a child's write cover no common byte. */
  lemma TableApart(kids: seq<Node>, s: nat, np: bool, w: Write, p: nat)
    requires w in KidWritesTo(kids, s, np, |kids|)
    ensures !(Covers(TableWrite(kids, s), p) && Covers(w, p))
  {
    var i := KidsInside(kids, s, np, |kids|, w);
    TableWriteInside(kids, s);
    RangesApart(TableWrite(kids, s), w, p, s, s + TableSectors(Names(kids)), KidSector(kids, s, i),
                KidSector(kids, s, i + 1));
  }

  /** Two writes of one tree that cover the same byte are the same write. */
  lemma {:induction false} TreeAgree(n: Node, s: nat, np: bool, v: Write, w: Write, p: nat)
    requires v in TreeWrites(n, s, np) && w in TreeWrites(n, s, np)
    requires Covers(v, p) && Covers(w, p)
    ensures v == w
    decreases n
  {
    if n.Dir? {
      var table, kids := TableWrite(n.kids, s), n.kids;
      if v != table && w != table {
        var i := KidsInside(kids, s, np, |kids|, v);
        var j := KidsInside(kids, s, np, |kids|, w);
        if i == j {
          TreeAgree(kids[i], KidSector(kids, s, i), np, v, w, p);
        } else if i < j {
          KidsApart(kids, s, i, j, v, w, p);
        } else {
          KidsApart(kids, s, j, i, w, v, p);
        }
      } else if v != table {
        TableApart(kids, s, np, v, p);
      } else if w != table {
        TableApart(kids, s, np, w, p);
      }
    }
  }

  // ---- What an image holds ----

  /** The image holds the tree `n` laid out from sector `s`: every table with its records
      and pointers, every file's bytes. */
  ghost predicate Holds(img: seq<byte>, n: Node, s: nat, np: bool)
    decreases n
  {
    if n.File? then Content(n, np) == [] || At(img, s * 2048, Content(n, np))
    else
      && At(img, s * 2048, TableBytes(n.kids, s))
      && forall i :: 0 <= i < |n.kids| ==> Holds(img, n.kids[i], KidSector(n.kids, s, i), np)
  }

  lemma {:induction false} KidWritesIn(kids: seq<Node>, s: nat, np: bool, i: nat, n: nat, w: Write)
    requires i < n <= |kids| && w in TreeWrites(kids[i], KidSector(kids, s, i), np)
    ensures w in KidWritesTo(kids, s, np, n)
    decreases n
  {
    hide FileWrite, TableWrite, KidSector, TreeWrites;
    if i < n - 1 {
      KidWritesIn(kids, s, np, i, n - 1, w);
    }
  }

  lemma FileFromWrite(img: seq<byte>, n: Node, s: nat, np: bool)
    requires n.File?
    requires var w := FileWrite(n, s, np); w.data != [] ==> At(img, w.off, w.data)
    ensures Content(n, np) == [] || At(img, s * 2048, Content(n, np))
  {
    var w, c := FileWrite(n, s, np), Content(n, np);
    if c != [] {
      assert w.data[0..|c|] == c;
      AtPart(img, w.off, w.data, c, 0);
    }
  }

  /** An image from which every write of the tree can be read back holds the tree. */
  lemma {:induction false} WritesMakeHolds(img: seq<byte>, n: Node, s: nat, np: bool)
    requires forall w :: w in TreeWrites(n, s, np) && w.data != [] ==> At(img, w.off, w.data)
    ensures Holds(img, n, s, np)
    decreases n
  {
    if n.File? {
      assert FileWrite(n, s, np) in TreeWrites(n, s, np);
      FileFromWrite(img, n, s, np);
    } else {
      var kids := n.kids;
      TableWriteInside(kids, s);
      assert TableWrite(kids, s) in TreeWrites(n, s, np);
      forall i | 0 <= i < |kids| ensures Holds(img, kids[i], KidSector(kids, s, i), np) {
        forall w | w in TreeWrites(kids[i], KidSector(kids, s, i), np) && w.data != [] ensures At(img, w.off, w.data) {
          KidWritesIn(kids, s, np, i, |kids|, w);
        }
        WritesMakeHolds(img, kids[i], KidSector(kids, s, i), np);
      }
    }
  }

  lemma AtAfter(img: seq<byte>, img': seq<byte>, from: nat, off: nat, data: seq<byte>)
    requires At(img, off, data) && |img| <= |img'| && from <= off
    requires forall p :: from <= p < |img| ==> img[p] == img'[p]
    ensures At(img', off, data)
  {
    assert img'[off..off + |data|] == img[off..off + |data|];
  }

  /** What an image holds from sector `s` on depends only on the bytes from there on, and
      bytes added at the end change nothing. */
  lemma {:induction false} HoldsAfter(img: seq<byte>, img': seq<byte>, from: nat, n: Node, s: nat, np: bool)
    requires Holds(img, n, s, np) && |img| <= |img'| && from <= s * 2048
    requires forall p :: from <= p < |img| ==> img[p] == img'[p]
    ensures Holds(img', n, s, np)
    decreases n
  {
    if n.File? {
      if Content(n, np) != [] {
        AtAfter(img, img', from, s * 2048, Content(n, np));
      }
    } else {
      AtAfter(img, img', from, s * 2048, TableBytes(n.kids, s));
      forall i | 0 <= i < |n.kids| ensures Holds(img', n.kids[i], KidSector(n.kids, s, i), np) {
        HoldsAfter(img, img', from, n.kids[i], KidSector(n.kids, s, i), np);
      }
    }
  }

  // ---- The whole disc ----

  const MAGIC: seq<byte> := [0x4D, 0x49, 0x43, 0x52, 0x4F, 0x53, 0x4F, 0x46, 0x54, 0x2A,
                             0x58, 0x42, 0x4F, 0x58, 0x2A, 0x4D, 0x45, 0x44, 0x49, 0x41]

  function HeaderBytes(rootSector: u32, rootSize: u32): (r: seq<byte>)
    ensures |r| == 2048
  {
    MAGIC + Le32(rootSector) + Le32(rootSize) + Zeros(8) + Zeros(0x7C8) + MAGIC
  }

  function StubSector(kind: byte): (r: seq<byte>)
    ensures |r| == 2048
  {
    [kind, 0x43, 0x44, 0x30, 0x30, 0x31, 0x01] + Zeros(2041)
  }

  ghost function HeaderWrite(kids: seq<Node>): Write {
    Write(HEADER_OFFSET, HeaderBytes(ROOT_SECTOR, TableSize(Names(kids)) % 0x1_0000_0000))
  }

  /** Everything written before the image is padded. */
  ghost function BodyWrites(kids: seq<Node>, np: bool): seq<Write> {
    [HeaderWrite(kids)] + (AllFiles(kids, ROOT_SECTOR, np) + AllTables(kids, ROOT_SECTOR))
  }

  function PadTo64K(img: seq<byte>): seq<byte> {
    img + Padding((0x10000 - |img| % 0x10000) % 0x10000)
  }

  function WithStub(img: seq<byte>): seq<byte> {
    Put(Put(img, STUB_OFFSET, StubSector(0x01)), STUB_OFFSET + 2048, StubSector(0xFF))
  }

  ghost function DiscImage(kids: seq<Node>, np: bool): seq<byte> {
    WithStub(PadTo64K(Apply(BodyWrites(kids, np), [])))
  }

  lemma BodyElems(kids: seq<Node>, np: bool, root: Node)
    requires root == Dir([0], kids)
    ensures Elems(BodyWrites(kids, np)) == {HeaderWrite(kids)} + TreeWrites(root, ROOT_SECTOR, np)
  {
    PassesCover(root, ROOT_SECTOR, np);
    ElemsConcat(AllFiles(kids, ROOT_SECTOR, np), AllTables(kids, ROOT_SECTOR));
    ElemsConcat([HeaderWrite(kids)], AllFiles(kids, ROOT_SECTOR, np) + AllTables(kids, ROOT_SECTOR));
  }

  /** No two writes of the image body disagree: header, tables and files have their own
      bytes. With `OrderIrrelevant`, the order in which they are made does not matter. */
  lemma BodyConsistent(kids: seq<Node>, np: bool)
    ensures Consistent(Elems(BodyWrites(kids, np)))
  {
    var root := Dir([0], kids);
    BodyElems(kids, np, root);
    BodySetConsistent(kids, np, root);
  }

  /** Any order of the image's writes, with any of them repeated, makes the same image. */
  lemma WriteOrderIrrelevant(kids: seq<Node>, np: bool, order: seq<Write>)
    requires Elems(order) == Elems(BodyWrites(kids, np))
    ensures Apply(order, []) == Apply(BodyWrites(kids, np), [])
  {
    hide BodyWrites;
    BodyConsistent(kids, np);
    OrderIrrelevant(order, BodyWrites(kids, np), []);
  }

  lemma BodySetConsistent(kids: seq<Node>, np: bool, root: Node)
    ensures Consistent({HeaderWrite(kids)} + TreeWrites(root, ROOT_SECTOR, np))
  {
    var ws := {HeaderWrite(kids)} + TreeWrites(root, ROOT_SECTOR, np);
    forall v, w, p: nat | v in ws && w in ws && Covers(v, p) && Covers(w, p)
      ensures v.data[p - v.off] == w.data[p - w.off]
    {
      BodyAgree(kids, np, root, v, w, p);
    }
  }

  lemma BodyAgree(kids: seq<Node>, np: bool, root: Node, v: Write, w: Write, p: nat)
    requires v in {HeaderWrite(kids)} + TreeWrites(root, ROOT_SECTOR, np)
    requires w in {HeaderWrite(kids)} + TreeWrites(root, ROOT_SECTOR, np)
    requires Covers(v, p) && Covers(w, p)
    ensures v == w
  {
    if v in TreeWrites(root, ROOT_SECTOR, np) && w in TreeWrites(root, ROOT_SECTOR, np) {
      TreeAgree(root, ROOT_SECTOR, np, v, w, p);
    } else if v in TreeWrites(root, ROOT_SECTOR, np) {
      TreeInside(root, ROOT_SECTOR, np, v);
    } else if w in TreeWrites(root, ROOT_SECTOR, np) {
      TreeInside(root, ROOT_SECTOR, np, w);
    }
  }

  /** The padding and the ISO 9660 stub leave everything behind the stub alone. */
  lemma FinishKeeps(img: seq<byte>)
    requires 0x10000 <= |img|
    ensures var r := WithStub(PadTo64K(img));
      && |r| % 0x10000 == 0 && |img| <= |r|
      && (forall p :: 0x9000 <= p < |img| ==> r[p] == img[p])
  {
  }

  /** The finished image holds the whole tree, has its volume descriptor in place and is
      a multiple of 64 KiB long. */
  lemma DiscHolds(kids: seq<Node>, np: bool)
    ensures var disc := DiscImage(kids, np);
      && Holds(disc, Dir([0], kids), ROOT_SECTOR, np)
      && At(disc, HeaderWrite(kids).off, HeaderWrite(kids).data)
      && |disc| % 0x10000 == 0
  {
    hide Holds, BodyWrites, Apply, PadTo64K, WithStub, HeaderBytes;
    var body := Apply(BodyWrites(kids, np), []);
    BodyHolds(kids, np);
    FinishKeeps(body);
    var disc := DiscImage(kids, np);
    HoldsAfter(body, disc, 0x9000, Dir([0], kids), ROOT_SECTOR, np);
    AtAfter(body, disc, 0x9000, HeaderWrite(kids).off, HeaderWrite(kids).data);
  }

  lemma BodyHolds(kids: seq<Node>, np: bool)
    ensures var body := Apply(BodyWrites(kids, np), []);
      && Holds(body, Dir([0], kids), ROOT_SECTOR, np)
      && At(body, HeaderWrite(kids).off, HeaderWrite(kids).data)
  {
    var root := Dir([0], kids);
    var body := Apply(BodyWrites(kids, np), []);
    BodyElems(kids, np, root);
    BodyConsistent(kids, np);
    forall w | w in Elems(BodyWrites(kids, np)) && w.data != [] ensures At(body, w.off, w.data) {
      ApplyKeeps(BodyWrites(kids, np), [], w);
    }
    assert HeaderWrite(kids) in Elems(BodyWrites(kids, np));
    WritesMakeHolds(body, root, ROOT_SECTOR, np);
  }
}
