/** Source trees, name order and sector allocation (xiso.cpp: ci_less, assign_sectors). */
module XisoTree {
  import opened Bytes
  import opened XisoLayout

  /** A host directory tree. `size` is the size the directory scan reports, `data` what
      reading the file later returns; the two may disagree. */
  datatype Node =
    | File(name: Name, size: nat, data: seq<byte>)
    | Dir(name: Name, kids: seq<Node>)

  function Names(kids: seq<Node>): (names: seq<Name>)
    ensures |names| == |kids|
    ensures forall i :: 0 <= i < |kids| ==> names[i] == kids[i].name
  {
    seq(|kids|, i requires 0 <= i < |kids| => kids[i].name)
  }

  // ---- Name order ----

  function Upper(b: byte): byte {
    if 0x61 <= b <= 0x7A then b - 0x20 else b
  }

  predicate CiLess(a: seq<byte>, b: seq<byte>) {
    if b == [] then false
    else if a == [] then true
    else Upper(a[0]) < Upper(b[0]) || (Upper(a[0]) == Upper(b[0]) && CiLess(a[1..], b[1..]))
  }

  /** The names are equal ignoring case. */
  ghost predicate CiEqual(a: seq<byte>, b: seq<byte>) {
    |a| == |b| && forall i :: 0 <= i < |a| ==> Upper(a[i]) == Upper(b[i])
  }

  /** Exactly one of less, equal and greater holds. */
  lemma {:induction false} CiTrichotomy(a: seq<byte>, b: seq<byte>)
    ensures CiEqual(a, b) <==> !CiLess(a, b) && !CiLess(b, a)
    ensures !(CiLess(a, b) && CiLess(b, a))
  {
    if a != [] && b != [] {
      CiTrichotomy(a[1..], b[1..]);
      CiEqualTail(a, b);
    }
  }

  lemma CiEqualTail(a: seq<byte>, b: seq<byte>)
    requires a != [] && b != []
    ensures CiEqual(a, b) <==> Upper(a[0]) == Upper(b[0]) && CiEqual(a[1..], b[1..])
  {
    if Upper(a[0]) == Upper(b[0]) && CiEqual(a[1..], b[1..]) {
      forall i | 0 <= i < |a| ensures Upper(a[i]) == Upper(b[i]) {
        assert i > 0 ==> a[i] == a[1..][i - 1] && b[i] == b[1..][i - 1];
      }
    }
  }

  lemma {:induction false} CiTransitive(a: seq<byte>, b: seq<byte>, c: seq<byte>)
    requires CiLess(a, b) && CiLess(b, c)
    ensures CiLess(a, c)
  {
    if a != [] && Upper(a[0]) == Upper(b[0]) == Upper(c[0]) {
      CiTransitive(a[1..], b[1..], c[1..]);
    }
  }

  /** Names that are equal ignoring case compare alike. */
  lemma {:induction false} CiCongruent(a: seq<byte>, b: seq<byte>, c: seq<byte>)
    requires CiEqual(a, b)
    ensures CiLess(a, c) == CiLess(b, c) && CiLess(c, a) == CiLess(c, b)
    decreases |a|
  {
    if a != [] && c != [] {
      CiEqualTail(a, b);
      CiCongruent(a[1..], b[1..], c[1..]);
    }
  }

  /** Children in the order `build_tree` leaves them in. */
  ghost predicate SortedKids(kids: seq<Node>) {
    forall i, j :: 0 <= i < j < |kids| ==> !CiLess(kids[j].name, kids[i].name)
  }

  ghost predicate Sorted(n: Node)
    decreases n
  {
    n.Dir? ==> SortedKids(n.kids) && forall i :: 0 <= i < |n.kids| ==> Sorted(n.kids[i])
  }

  // ---- Sizes and sectors ----

  /** The 32-bit file size the builder keeps. */
  function FileSize(n: Node): u32
    requires n.File?
  {
    n.size % 0x1_0000_0000
  }

  /** `data` cut or padded with 0xFF to `size` bytes. */
  function Fill(data: seq<byte>, size: nat): (r: seq<byte>)
    ensures |r| == size
  {
    if size <= |data| then data[..size] else data + seq(size - |data|, _ => 0xFF)
  }

  function FileSectors(size: nat): nat {
    if size == 0 then 1 else (size + 2047) / 2048
  }

  ghost function SizeOf(n: Node): nat {
    if n.File? then FileSize(n) else TableSize(Names(n.kids))
  }

  ghost function OwnSectors(n: Node): nat {
    if n.File? then FileSectors(FileSize(n)) else TableSectors(Names(n.kids))
  }

  /** Sectors of a node and everything below it. */
  ghost function Span(n: Node): nat
    decreases n
  {
    OwnSectors(n) + if n.File? then 0 else SpanTo(n.kids, |n.kids|)
  }

  /** Sectors of the first `i` children with everything below them. */
  ghost function SpanTo(kids: seq<Node>, i: nat): nat
    requires i <= |kids|
    decreases kids, i
  {
    if i == 0 then 0 else SpanTo(kids, i - 1) + Span(kids[i - 1])
  }

  /** First sector of child `i` of a directory whose own table starts at `s`. */
  ghost function KidSector(kids: seq<Node>, s: nat, i: nat): nat
    requires i <= |kids|
  {
    s + TableSectors(Names(kids)) + SpanTo(kids, i)
  }

  lemma KidSectorNext(kids: seq<Node>, s: nat, i: nat)
    requires i < |kids|
    ensures KidSector(kids, s, i + 1) == KidSector(kids, s, i) + Span(kids[i])
  {
  }

  lemma KidSectorRange(kids: seq<Node>, s: nat, name: Name, i: nat)
    requires i <= |kids|
    ensures s + TableSectors(Names(kids)) <= KidSector(kids, s, i) <= s + Span(Dir(name, kids))
  {
    SpanToMonotone(kids, i, |kids|);
  }

  /** Every directory table below `n` is small enough for its 16-bit pointers. */
  ghost predicate SmallTables(n: Node)
    decreases n
  {
    n.Dir? ==>
      && TableSize(Names(n.kids)) <= MAX_TABLE
      && forall i :: 0 <= i < |n.kids| ==> SmallTables(n.kids[i])
  }

  /** The sector numbers of a tree laid out from `s` fit 32 bits. */
  ghost predicate SectorsFit(kids: seq<Node>, s: nat) {
    s + TableSectors(Names(kids)) + SpanTo(kids, |kids|) < 0x1_0000_0000
  }

  lemma OwnSectorsPositive(n: Node)
    ensures OwnSectors(n) > 0
  {
    if n.Dir? {
      TableSectorsPositive(Names(n.kids));
    }
  }

  lemma {:induction false} SpanToMonotone(kids: seq<Node>, i: nat, j: nat)
    requires i <= j <= |kids|
    ensures SpanTo(kids, i) <= SpanTo(kids, j)
    decreases j
  {
    if i < j {
      SpanToMonotone(kids, i, j - 1);
    }
  }

  // ---- Extents: one per node, tiling the allocated range ----

  datatype Extent = Extent(start: nat, count: nat)

  ghost function Extents(n: Node, s: nat): seq<Extent>
    decreases n
  {
    [Extent(s, OwnSectors(n))] +
    if n.File? then [] else ExtentsTo(n.kids, s, |n.kids|)
  }

  ghost function ExtentsTo(kids: seq<Node>, s: nat, i: nat): seq<Extent>
    requires i <= |kids|
    decreases kids, i
  {
    if i == 0 then [] else ExtentsTo(kids, s, i - 1) + Extents(kids[i - 1], KidSector(kids, s, i - 1))
  }

  /** Non-empty extents that follow each other from `from` to `to` without gap or overlap. */
  ghost predicate Tiles(es: seq<Extent>, from: nat, to: nat) {
    if es == [] then from == to
    else
      var e := es[|es| - 1];
      e.count > 0 && e.start + e.count == to && Tiles(es[..|es| - 1], from, e.start)
  }

  lemma {:induction false} TilesConcat(a: seq<Extent>, b: seq<Extent>, from: nat, mid: nat, to: nat)
    requires Tiles(a, from, mid) && Tiles(b, mid, to)
    ensures Tiles(a + b, from, to)
    decreases |b|
  {
    if b == [] {
      assert a + b == a;
    } else {
      var last := |b| - 1;
      TilesConcat(a, b[..last], from, mid, b[last].start);
      assert (a + b)[..|a + b| - 1] == a + b[..last];
    }
  }

  /** Tiling extents are pairwise disjoint and inside the tiled range. */
  lemma {:induction false} TilesDisjoint(es: seq<Extent>, from: nat, to: nat, i: nat, j: nat)
    requires Tiles(es, from, to) && i <= j < |es|
    ensures from <= es[i].start && es[j].start + es[j].count <= to
    ensures i < j ==> es[i].start + es[i].count <= es[j].start
    decreases |es|
  {
    var last := |es| - 1;
    if j < last {
      TilesDisjoint(es[..last], from, es[last].start, i, j);
    } else if i < last {
      TilesDisjoint(es[..last], from, es[last].start, i, last - 1);
    } else if last > 0 {
      TilesDisjoint(es[..last], from, es[last].start, 0, last - 1);
    }
  }

  /** Allocation gives every table and file its own extent; the extents tile the range
      from the start sector to the final `next_sector`. */
  lemma {:induction false} ExtentsTile(n: Node, s: nat)
    ensures Tiles(Extents(n, s), s, s + Span(n))
    decreases n
  {
    OwnSectorsPositive(n);
    var own := [Extent(s, OwnSectors(n))];
    assert own[..0] == [];
    assert Tiles(own, s, s + OwnSectors(n));
    if n.File? {
      assert own + [] == own;
    } else {
      ExtentsToTile(n.kids, s, |n.kids|);
      TilesConcat(own, ExtentsTo(n.kids, s, |n.kids|), s, s + OwnSectors(n), s + Span(n));
    }
  }

  lemma {:induction false} ExtentsToTile(kids: seq<Node>, s: nat, i: nat)
    requires i <= |kids|
    ensures Tiles(ExtentsTo(kids, s, i), KidSector(kids, s, 0), KidSector(kids, s, i))
    decreases kids, i
  {
    if i > 0 {
      ExtentsToTile(kids, s, i - 1);
      ExtentsTile(kids[i - 1], KidSector(kids, s, i - 1));
      TilesConcat(ExtentsTo(kids, s, i - 1), Extents(kids[i - 1], KidSector(kids, s, i - 1)),
                  KidSector(kids, s, 0), KidSector(kids, s, i - 1), KidSector(kids, s, i));
    }
  }

  /** A file keeps its content exactly when its size fits the 32-bit field. */
  lemma FillExact(n: Node)
    requires n.File? && n.size == |n.data|
    ensures Fill(n.data, FileSize(n)) == n.data <==> |n.data| < 0x1_0000_0000
  {
    if |n.data| < 0x1_0000_0000 {
      assert n.data[..|n.data|] == n.data;
    }
  }

  /** A file of 4 GiB is kept as an empty one. */
  lemma FillLoses()
    ensures var data: seq<byte> := seq(0x1_0000_0000, _ => 0);
      var n := File([0x41], |data|, data);
      FileSize(n) == 0 && Fill(n.data, FileSize(n)) == [] && n.data != []
  {
  }
}
