/** Record layout of one directory table (xiso.cpp: record_length, calc_dir_size). */
module XisoLayout {
  import opened Bytes

  /** File names of the host are 1 to 255 bytes long. */
  type Name = s: seq<byte> | 1 <= |s| <= 255 witness [0]

  /** Files are copied through a buffer of this size. */
  const RW_BUF_SIZE: nat := 0x20_0000

  const MAX_TABLE: nat := 0x40000

  /** Bytes of one record: 14 of prefix, the name, padding to a dword. */
  function RecordLength(name: Name): nat {
    var len := 14 + |name|;
    len + (4 - len % 4) % 4
  }

  /** The dwords of one record. */
  ghost function Dwords(name: Name): (d: nat)
    ensures 14 + |name| <= 4 * d < 18 + |name|
  {
    (17 + |name|) / 4
  }

  lemma RecordLengthDwords(name: Name)
    ensures RecordLength(name) == 4 * Dwords(name)
  {
  }

  function Mid(lo: int, hi: int): (mid: int)
    requires 0 <= lo <= hi
    ensures lo <= mid <= hi
  {
    (lo + hi) / 2
  }

  /** A write position: a 2048-byte sector and the dwords used in it. */
  datatype Cursor = Cursor(sector: nat, used: nat) {
    ghost predicate Valid() {
      used < 512
    }

    /** The start of the table. */
    ghost predicate First() {
      sector == 0 && used == 0
    }

    ghost function Pos(): nat {
      2048 * sector + 4 * used
    }

    /** `d` dwords placed here end before `next`. */
    ghost predicate Before(d: nat, next: Cursor) {
      sector < next.sector || (sector == next.sector && used + d <= next.used)
    }

    /** Where a record of `len` dwords goes: a record that would reach the sector's
        end starts the next sector. */
    ghost function Skip(len: nat): Cursor {
      if used + len >= 512 then Cursor(sector + 1, 0) else this
    }

    ghost function After(len: nat): Cursor {
      Cursor(Skip(len).sector, Skip(len).used + len)
    }

    ghost function Sectors(): nat {
      if used > 0 then sector + 1 else sector
    }
  }

  ghost predicate Range(names: seq<Name>, lo: int, hi: int) {
    0 <= lo <= hi + 1 <= |names|
  }

  /** The cursor after the records of `names[lo..hi]` have been placed in prefix order. */
  ghost function EndOf(names: seq<Name>, lo: int, hi: int, c: Cursor): (end: Cursor)
    requires Range(names, lo, hi) && c.Valid()
    ensures end.Valid() && c.Before(0, end) && (lo <= hi ==> end.used > 0)
    decreases hi - lo + 1
  {
    if lo > hi then c
    else
      var mid := Mid(lo, hi);
      EndOf(names, mid + 1, hi, EndOf(names, lo, mid - 1, c.After(Dwords(names[mid]))))
  }

  /** The place of record `i` when `names[lo..hi]` is laid out from `c`. */
  ghost function PlaceIn(names: seq<Name>, lo: int, hi: int, c: Cursor, i: int): (p: Cursor)
    requires Range(names, lo, hi) && lo <= i <= hi && c.Valid()
    decreases hi - lo + 1
  {
    var mid := Mid(lo, hi);
    var left := c.After(Dwords(names[mid]));
    if i == mid then c.Skip(Dwords(names[mid]))
    else if i < mid then PlaceIn(names, lo, mid - 1, left, i)
    else PlaceIn(names, mid + 1, hi, EndOf(names, lo, mid - 1, left), i)
  }

  // The two results of laying out a whole table. Each is defined through the range and
  // the cursor it starts with, so that proofs elsewhere do not unfold the layout.

  ghost predicate IsOffset(names: seq<Name>, i: nat, off: nat)
    requires i < |names|
  {
    forall lo, hi, c: Cursor {:trigger PlaceIn(names, lo, hi, c, i)} ::
      lo == 0 && hi == |names| - 1 && c.First() ==> off == PlaceIn(names, lo, hi, c, i).Pos()
  }

  ghost predicate IsSectorCount(names: seq<Name>, sectors: nat) {
    forall lo, hi, c: Cursor {:trigger EndOf(names, lo, hi, c)} ::
      lo == 0 && hi == |names| - 1 && c.First() ==>
        sectors == if names == [] then 1 else EndOf(names, lo, hi, c).Sectors()
  }

  /** Byte offset of record `i` in the directory's table. */
  ghost function RecordOffset(names: seq<Name>, i: nat): nat
    requires i < |names|
  {
    OffsetExists(names, i);
    var off: nat :| IsOffset(names, i, off);
    off
  }

  /** Sectors of the directory's table. */
  ghost function TableSectors(names: seq<Name>): nat {
    SectorCountExists(names);
    var sectors: nat :| IsSectorCount(names, sectors);
    sectors
  }

  ghost function TableSize(names: seq<Name>): nat {
    2048 * TableSectors(names)
  }

  lemma OffsetExists(names: seq<Name>, i: nat)
    requires i < |names|
    ensures exists off: nat :: IsOffset(names, i, off)
  {
    var c0: Cursor := Cursor(0, 0);
    assert IsOffset(names, i, PlaceIn(names, 0, |names| - 1, c0, i).Pos());
  }

  lemma SectorCountExists(names: seq<Name>)
    ensures exists sectors: nat :: IsSectorCount(names, sectors)
  {
    var c0: Cursor := Cursor(0, 0);
    assert IsSectorCount(names, if names == [] then 1 else EndOf(names, 0, |names| - 1, c0).Sectors());
  }

  // ---- Packing: alignment, order, disjointness, no straddling ----

  lemma BeforeChain(p: Cursor, d: nat, q: Cursor, e: nat, r: Cursor)
    requires p.Before(d, q) && q.Before(e, r)
    ensures p.Before(d, r)
  {
  }

  /** Record `i` lies inside one sector and inside the bytes of its range. */
  lemma {:induction false} RecordPlaced(names: seq<Name>, lo: int, hi: int, c: Cursor, i: int)
    requires Range(names, lo, hi) && lo <= i <= hi && c.Valid()
    ensures var p := PlaceIn(names, lo, hi, c, i);
      && p.used + Dwords(names[i]) < 512
      && c.Before(0, p)
      && p.Before(Dwords(names[i]), EndOf(names, lo, hi, c))
    decreases hi - lo + 1
  {
    hide Dwords, Mid;
    var mid := Mid(lo, hi);
    var left := c.After(Dwords(names[mid]));
    var right := EndOf(names, lo, mid - 1, left);
    var p, d, end := PlaceIn(names, lo, hi, c, i), Dwords(names[i]), EndOf(names, lo, hi, c);
    if i < mid {
      RecordPlaced(names, lo, mid - 1, left, i);
      BeforeChain(c, 0, left, 0, p);
      BeforeChain(p, d, right, 0, end);
    } else if i > mid {
      RecordPlaced(names, mid + 1, hi, right, i);
      BeforeChain(c, 0, left, 0, right);
      BeforeChain(c, 0, right, 0, p);
    } else {
      BeforeChain(p, d, left, 0, right);
      BeforeChain(p, d, right, 0, end);
    }
  }

  /** `i` comes before `j` in prefix order of the implicit tree over `lo..hi`. */
  ghost predicate PrefixBefore(lo: int, hi: int, i: int, j: int)
    requires 0 <= lo <= i <= hi && lo <= j <= hi
    decreases hi - lo + 1
  {
    var mid := Mid(lo, hi);
    if i == mid then j != mid
    else if i < mid then
      if j < mid then PrefixBefore(lo, mid - 1, i, j) else j > mid
    else
      j > mid && PrefixBefore(mid + 1, hi, i, j)
  }

  /** Prefix order is total on distinct indices. */
  lemma {:induction false} PrefixTotal(lo: int, hi: int, i: int, j: int)
    requires 0 <= lo <= i <= hi && lo <= j <= hi && i != j
    ensures PrefixBefore(lo, hi, i, j) <==> !PrefixBefore(lo, hi, j, i)
    decreases hi - lo + 1
  {
    var mid := Mid(lo, hi);
    if i < mid && j < mid {
      PrefixTotal(lo, mid - 1, i, j);
    } else if i > mid && j > mid {
      PrefixTotal(mid + 1, hi, i, j);
    }
  }

  /** Records are laid out in prefix order without overlap. */
  lemma {:induction false} RecordsOrdered(names: seq<Name>, lo: int, hi: int, c: Cursor, i: int, j: int)
    requires Range(names, lo, hi) && lo <= i <= hi && lo <= j <= hi && c.Valid()
    requires PrefixBefore(lo, hi, i, j)
    ensures PlaceIn(names, lo, hi, c, i).Before(Dwords(names[i]), PlaceIn(names, lo, hi, c, j))
    decreases hi - lo + 1
  {
    var mid := Mid(lo, hi);
    var left := c.After(Dwords(names[mid]));
    var right := EndOf(names, lo, mid - 1, left);
    if j < mid {
      if i == mid {
        RecordPlaced(names, lo, mid - 1, left, j);
      } else {
        RecordsOrdered(names, lo, mid - 1, left, i, j);
      }
    } else if i > mid {
      RecordsOrdered(names, mid + 1, hi, right, i, j);
    } else {
      RecordPlaced(names, mid + 1, hi, right, j);
      if i < mid {
        RecordPlaced(names, lo, mid - 1, left, i);
      }
    }
  }

  // ---- The whole table ----

  /** The `len` bytes at `off` lie in sector `s` and end before its end. */
  ghost predicate InSector(off: nat, len: nat, s: nat) {
    2048 * s <= off && off + len < 2048 * s + 2048
  }

  /** Every record is dword aligned, inside the table and inside one sector. */
  lemma RecordInTable(names: seq<Name>, i: nat)
    requires i < |names|
    ensures RecordOffset(names, i) % 4 == 0
    ensures RecordOffset(names, i) + 4 * Dwords(names[i]) <= TableSize(names)
    ensures exists s :: InSector(RecordOffset(names, i), 4 * Dwords(names[i]), s)
  {
    var lo, hi, c := Whole(names);
    var p, end := PlaceIn(names, lo, hi, c, i), EndOf(names, lo, hi, c);
    RecordPlaced(names, lo, hi, c, i);
    BytesOfPlace(p, Dwords(names[i]), end.Sectors());
  }

  lemma BytesOfPlace(p: Cursor, d: nat, sectors: nat)
    requires p.used + d < 512 && p.sector < sectors
    ensures p.Pos() % 4 == 0
    ensures p.Pos() + 4 * d <= 2048 * sectors
    ensures InSector(p.Pos(), 4 * d, p.sector)
  {
  }

  /** The range and the cursor with which a table is laid out. */
  lemma Whole(names: seq<Name>) returns (lo: int, hi: int, c: Cursor)
    ensures lo == 0 && hi == |names| - 1 && c.First()
  {
    lo, hi, c := 0, |names| - 1, Cursor(0, 0);
  }

  /** A table laid out from any start cursor has the directory's offsets and size. */
  lemma LaidOut(names: seq<Name>, lo: int, hi: int, c: Cursor)
    requires names != [] && lo == 0 && hi == |names| - 1 && c.First()
    ensures TableSectors(names) == EndOf(names, lo, hi, c).Sectors()
    ensures forall i :: 0 <= i < |names| ==> RecordOffset(names, i) == PlaceIn(names, lo, hi, c, i).Pos()
  {
    forall i | 0 <= i < |names| ensures RecordOffset(names, i) == PlaceIn(names, lo, hi, c, i).Pos() {
      assert IsOffset(names, i, RecordOffset(names, i));
    }
    assert IsSectorCount(names, TableSectors(names));
  }

  /** Records follow the prefix order of the implicit tree without overlap. */
  lemma RecordsAscend(names: seq<Name>, i: nat, j: nat)
    requires i < |names| && j < |names| && PrefixBefore(0, |names| - 1, i, j)
    ensures RecordOffset(names, i) + 4 * Dwords(names[i]) <= RecordOffset(names, j)
  {
    var lo, hi, c := Whole(names);
    RecordPlaced(names, lo, hi, c, i);
    RecordsOrdered(names, lo, hi, c, i, j);
    BytesBefore(PlaceIn(names, lo, hi, c, i), Dwords(names[i]), PlaceIn(names, lo, hi, c, j));
  }

  lemma BytesBefore(p: Cursor, d: nat, q: Cursor)
    requires p.used + d < 512 && p.Before(d, q)
    ensures p.Pos() + 4 * d <= q.Pos()
  {
  }

  lemma PosOfFirst(p: Cursor)
    requires p.First()
    ensures p.Pos() == 0
  {
  }

  /** Every directory has at least one table sector, an empty one exactly one. */
  lemma TableSectorsPositive(names: seq<Name>)
    ensures TableSectors(names) > 0
    ensures names == [] ==> TableSectors(names) == 1
  {
    var lo, hi, c := Whole(names);
    var end := EndOf(names, lo, hi, c);
  }

  /** The root of the implicit tree is at offset 0. */
  lemma RootOffset(names: seq<Name>)
    requires names != []
    ensures RecordOffset(names, Mid(0, |names| - 1)) == 0
  {
    var lo, hi, c := Whole(names);
    PosOfFirst(PlaceIn(names, lo, hi, c, Mid(lo, hi)));
  }

  /** No other record is at offset 0. */
  lemma OtherOffset(names: seq<Name>, i: nat)
    requires i < |names| && i != Mid(0, |names| - 1)
    ensures RecordOffset(names, i) > 0
  {
    RecordsAscend(names, Mid(0, |names| - 1), i);
  }

  lemma RecordsDisjoint(names: seq<Name>, i: nat, j: nat)
    requires i < |names| && j < |names| && i != j
    ensures var a, b := RecordOffset(names, i), RecordOffset(names, j);
      a + 4 * Dwords(names[i]) <= b || b + 4 * Dwords(names[j]) <= a
  {
    PrefixTotal(0, |names| - 1, i, j);
    if PrefixBefore(0, |names| - 1, i, j) {
      RecordsAscend(names, i, j);
    } else {
      RecordsAscend(names, j, i);
    }
  }

  /** Every child pointer of a table of at most 0x40000 bytes is a 16-bit dword index
      that names its record and is neither of the two no-child sentinels. */
  lemma PointerValid(names: seq<Name>, i: nat)
    requires i < |names| && TableSize(names) <= MAX_TABLE
    ensures var p := RecordOffset(names, i) / 4;
      && p * 4 == RecordOffset(names, i)
      && p < 0xFFFF
      && (i != Mid(0, |names| - 1) ==> p != 0)
  {
    RecordInTable(names, i);
    if i != Mid(0, |names| - 1) {
      OtherOffset(names, i);
    }
  }

  // ---- Space used ----

  ghost function SumDwords(names: seq<Name>, lo: int, hi: int): nat
    requires Range(names, lo, hi)
    decreases hi - lo + 1
  {
    if lo > hi then 0 else SumDwords(names, lo, hi - 1) + Dwords(names[hi])
  }

  lemma {:induction false} SumSplits(names: seq<Name>, lo: int, mid: int, hi: int)
    requires Range(names, lo, hi) && lo <= mid <= hi
    ensures SumDwords(names, lo, hi) ==
      SumDwords(names, lo, mid - 1) + Dwords(names[mid]) + SumDwords(names, mid + 1, hi)
    decreases hi
  {
    if mid < hi {
      SumSplits(names, lo, mid, hi - 1);
    }
  }

  /** Dwords counted towards the bound: a sector counts as full from 444 dwords on. */
  ghost function Weight(c: Cursor): nat {
    444 * c.sector + if c.used < 444 then c.used else 444
  }

  /** Placing a record adds at most its dwords. */
  lemma RecordWeight(c: Cursor, name: Name)
    requires c.Valid()
    ensures c.After(Dwords(name)).Valid() && Weight(c.After(Dwords(name))) <= Weight(c) + Dwords(name)
  {
  }

  lemma SumNothing(names: seq<Name>, lo: int, hi: int)
    requires Range(names, lo, hi) && lo > hi
    ensures SumDwords(names, lo, hi) == 0
  {
  }

  lemma MidBetween(lo: int, hi: int)
    requires 0 <= lo <= hi
    ensures lo <= Mid(lo, hi) <= hi
  {
  }

  lemma {:induction false} WeightBound(names: seq<Name>, lo: int, hi: int, c: Cursor)
    requires Range(names, lo, hi) && c.Valid()
    ensures Weight(EndOf(names, lo, hi, c)) <= Weight(c) + SumDwords(names, lo, hi)
    decreases hi - lo + 1
  {
    hide Weight, Dwords, Mid, SumDwords, Cursor.After;
    if lo > hi {
      SumNothing(names, lo, hi);
    } else {
      var mid := Mid(lo, hi);
      MidBetween(lo, hi);
      var left := c.After(Dwords(names[mid]));
      RecordWeight(c, names[mid]);
      WeightBound(names, lo, mid - 1, left);
      WeightBound(names, mid + 1, hi, EndOf(names, lo, mid - 1, left));
      SumSplits(names, lo, mid, hi);
    }
  }

  /** A table never needs more sectors than one per 1776 bytes of records, plus one. */
  lemma TableSectorsBound(names: seq<Name>)
    ensures TableSectors(names) <= 4 * SumDwords(names, 0, |names| - 1) / 1776 + 1
  {
    var lo, hi, c := Whole(names);
    WeightBound(names, lo, hi, c);
    var end := EndOf(names, lo, hi, c);
    if names != [] {
      BoundBytes(end.sector, end.Sectors(), SumDwords(names, lo, hi));
    }
  }

  lemma BoundBytes(full: nat, sectors: nat, dwords: nat)
    requires 444 * full <= dwords && sectors <= full + 1
    ensures sectors <= 4 * dwords / 1776 + 1
  {
  }
}
