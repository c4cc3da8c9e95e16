/** Directory tables: records, child pointers and their bytes (xiso.cpp: write_dirtable,
    parse_record, read_lr). */
module XisoTable {
  import opened Bytes
  import opened Wrappers
  import opened XisoLayout
  import opened XisoTree
  import opened XisoImage

  const ATTRIBUTE_DIR: byte := 0x10
  const ATTRIBUTE_ARC: byte := 0x20
  const PAD_BYTE: byte := 0xFF
  const PAD_SHORT: u16 := 0xFFFF
  const NULL_CHILD: u16 := 0

  // ---- Disjoint stores in prefix order ----

  /** The store made for the middle element of an index range. */
  type Store = (int, int) -> Write

  datatype Slot = Slot(off: nat, len: nat)

  ghost predicate DisjointSlots(slots: seq<Slot>, size: nat) {
    && (forall i :: 0 <= i < |slots| ==> slots[i].off + slots[i].len <= size)
    && (forall i, j :: 0 <= i < |slots| && 0 <= j < |slots| && i != j ==>
          slots[i].off + slots[i].len <= slots[j].off || slots[j].off + slots[j].len <= slots[i].off)
  }

  /** Every store made for a range fills the slot of the range's middle element. */
  ghost predicate FillsSlots(rec: Store, slots: seq<Slot>) {
    forall lo, hi :: 0 <= lo <= hi < |slots| ==>
      && rec(lo, hi).off == slots[Mid(lo, hi)].off
      && |rec(lo, hi).data| == slots[Mid(lo, hi)].len
  }

  /** The stores of `lo..hi` in the order node, left part, right part. */
  ghost function InPrefixOrder(rec: Store, lo: int, hi: int): seq<Write>
    requires 0 <= lo <= hi + 1
    decreases hi - lo + 1
  {
    if lo > hi then []
    else
      var mid := Mid(lo, hi);
      [rec(lo, hi)] + (InPrefixOrder(rec, lo, mid - 1) + InPrefixOrder(rec, mid + 1, hi))
  }

  ghost predicate AllStored(table: seq<byte>, rec: Store, lo: int, hi: int)
    requires 0 <= lo <= hi + 1
    decreases hi - lo + 1
  {
    lo <= hi ==>
      var mid := Mid(lo, hi);
      && At(table, rec(lo, hi).off, rec(lo, hi).data)
      && AllStored(table, rec, lo, mid - 1)
      && AllStored(table, rec, mid + 1, hi)
  }

  lemma PrefixMembers(rec: Store, lo: int, hi: int, w: Write)
    requires 0 <= lo <= hi
    ensures w in InPrefixOrder(rec, lo, hi) <==>
      || w == rec(lo, hi)
      || w in InPrefixOrder(rec, lo, Mid(lo, hi) - 1)
      || w in InPrefixOrder(rec, Mid(lo, hi) + 1, hi)
  {
    var left, right := InPrefixOrder(rec, lo, Mid(lo, hi) - 1), InPrefixOrder(rec, Mid(lo, hi) + 1, hi);
    InThree(rec(lo, hi), left, right, w);
  }

  lemma InThree(x: Write, left: seq<Write>, right: seq<Write>, w: Write)
    ensures w in [x] + (left + right) <==> w == x || w in left || w in right
  {
  }

  /** The store made for element `i` of `lo..hi`. */
  ghost function StoreAt(rec: Store, lo: int, hi: int, i: int): Write
    requires 0 <= lo <= i <= hi
    decreases hi - lo + 1
  {
    var mid := Mid(lo, hi);
    if i == mid then rec(lo, hi)
    else if i < mid then StoreAt(rec, lo, mid - 1, i)
    else StoreAt(rec, mid + 1, hi, i)
  }

  lemma {:induction false} StoreIndex(rec: Store, lo: int, hi: int, w: Write) returns (i: int)
    requires 0 <= lo <= hi + 1
    requires w in InPrefixOrder(rec, lo, hi)
    ensures lo <= i <= hi && w == StoreAt(rec, lo, hi, i)
    decreases hi - lo + 1
  {
    var mid := Mid(lo, hi);
    PrefixMembers(rec, lo, hi, w);
    if w in InPrefixOrder(rec, lo, mid - 1) {
      i := StoreIndex(rec, lo, mid - 1, w);
    } else if w in InPrefixOrder(rec, mid + 1, hi) {
      i := StoreIndex(rec, mid + 1, hi, w);
    } else {
      i := mid;
    }
  }

  lemma {:induction false} StoreFills(rec: Store, slots: seq<Slot>, lo: int, hi: int, i: int)
    requires 0 <= lo <= i <= hi < |slots| && FillsSlots(rec, slots)
    ensures StoreAt(rec, lo, hi, i).off == slots[i].off && |StoreAt(rec, lo, hi, i).data| == slots[i].len
    decreases hi - lo + 1
  {
    var mid := Mid(lo, hi);
    if i < mid {
      StoreFills(rec, slots, lo, mid - 1, i);
    } else if i > mid {
      StoreFills(rec, slots, mid + 1, hi, i);
    }
  }

  lemma SlotUnique(slots: seq<Slot>, size: nat, i: nat, j: nat, p: nat)
    requires i < |slots| && j < |slots| && DisjointSlots(slots, size)
    requires slots[i].off <= p < slots[i].off + slots[i].len
    requires slots[j].off <= p < slots[j].off + slots[j].len
    ensures i == j
  {
  }

  /** Two stores that cover the same byte are one and the same. */
  lemma StoresAgree(rec: Store, slots: seq<Slot>, size: nat, last: int, v: Write, w: Write, p: nat)
    requires last == |slots| - 1 && FillsSlots(rec, slots) && DisjointSlots(slots, size)
    requires v in InPrefixOrder(rec, 0, last) && w in InPrefixOrder(rec, 0, last)
    requires Covers(v, p) && Covers(w, p)
    ensures v == w
  {
    var i := StoreIndex(rec, 0, last, v);
    var j := StoreIndex(rec, 0, last, w);
    StoreFills(rec, slots, 0, last, i);
    StoreFills(rec, slots, 0, last, j);
    SlotUnique(slots, size, i, j, p);
  }

  lemma {:induction false} StoredAll(table: seq<byte>, rec: Store, lo: int, hi: int)
    requires 0 <= lo <= hi + 1
    requires forall w :: w in InPrefixOrder(rec, lo, hi) ==> At(table, w.off, w.data)
    ensures AllStored(table, rec, lo, hi)
    decreases hi - lo + 1
  {
    if lo <= hi {
      var mid := Mid(lo, hi);
      assert rec(lo, hi) in InPrefixOrder(rec, lo, hi);
      StoredAll(table, rec, lo, mid - 1);
      StoredAll(table, rec, mid + 1, hi);
    }
  }

  lemma StoresConsistent(rec: Store, slots: seq<Slot>, size: nat, last: int)
    requires last == |slots| - 1 && FillsSlots(rec, slots) && DisjointSlots(slots, size)
    ensures Consistent(Elems(InPrefixOrder(rec, 0, last)))
  {
    var ws := InPrefixOrder(rec, 0, last);
    forall v, w, p: nat | v in Elems(ws) && w in Elems(ws) && Covers(v, p) && Covers(w, p)
      ensures v.data[p - v.off] == w.data[p - w.off]
    {
      StoresAgree(rec, slots, size, last, v, w, p);
    }
  }

  /** Stores into disjoint slots all survive, and the buffer keeps its size. */
  lemma StoresHold(rec: Store, slots: seq<Slot>, buf: seq<byte>, last: int)
    requires last == |slots| - 1 && FillsSlots(rec, slots) && DisjointSlots(slots, |buf|)
    requires forall i :: 0 <= i < |slots| ==> slots[i].len > 0
    ensures |Apply(InPrefixOrder(rec, 0, last), buf)| == |buf|
    ensures AllStored(Apply(InPrefixOrder(rec, 0, last), buf), rec, 0, last)
  {
    var ws := InPrefixOrder(rec, 0, last);
    StoresConsistent(rec, slots, |buf|, last);
    forall w | w in ws ensures At(Apply(ws, buf), w.off, w.data) && w.off + |w.data| <= |buf| {
      var i := StoreIndex(rec, 0, last, w);
      StoreFills(rec, slots, 0, last, i);
      ApplyKeeps(ws, buf, w);
    }
    StoredAll(Apply(ws, buf), rec, 0, last);
    ApplyLength(ws, buf);
    ReachWitness(ws);
  }

  // ---- Records ----

  datatype Entry = Entry(name: seq<byte>, startSector: u32, fileSize: u32, attributes: byte) {
    predicate IsDir() {
      attributes / 0x10 % 2 != 0
    }
  }

  function Attributes(isDir: bool): byte {
    if isDir then ATTRIBUTE_DIR else ATTRIBUTE_ARC
  }

  function RecordBytes(l: u16, r: u16, start: u32, size: u32, isDir: bool, name: Name): (rec: seq<byte>)
    ensures |rec| == 14 + |name|
  {
    Le16(l) + Le16(r) + Le32(start) + Le32(size) + [Attributes(isDir), |name|] + name
  }

  /** The 16-bit pointer to the root of the implicit tree over `lo..hi`. */
  ghost function Pointer(names: seq<Name>, lo: int, hi: int): u16
    requires Range(names, lo, hi)
  {
    if lo > hi then PAD_SHORT else RecordOffset(names, Mid(lo, hi)) / 4 % 0x1_0000
  }

  /** The record of the middle child of `lo..hi`, in a directory whose table is at sector `s`. */
  ghost function KidRecord(kids: seq<Node>, s: nat, lo: int, hi: int): (rec: seq<byte>)
    requires 0 <= lo <= hi < |kids|
    ensures |rec| == 14 + |kids[Mid(lo, hi)].name|
  {
    var mid := Mid(lo, hi);
    RecordBytes(Pointer(Names(kids), lo, mid - 1), Pointer(Names(kids), mid + 1, hi),
                KidSector(kids, s, mid) % 0x1_0000_0000, SizeOf(kids[mid]) % 0x1_0000_0000,
                kids[mid].Dir?, kids[mid].name)
  }

  function Padding(n: nat): (r: seq<byte>)
    ensures |r| == n && forall k :: 0 <= k < n ==> r[k] == PAD_BYTE
  {
    seq(n, _ => PAD_BYTE)
  }

  /** The store of the record in the middle of `lo..hi`. */
  ghost function KidWrite(kids: seq<Node>, s: nat, lo: int, hi: int): Write {
    if 0 <= lo <= hi < |kids| then Write(RecordOffset(Names(kids), Mid(lo, hi)), KidRecord(kids, s, lo, hi))
    else Write(0, [])
  }

  ghost function KidWrites(kids: seq<Node>, s: nat): Store {
    (lo, hi) => KidWrite(kids, s, lo, hi)
  }

  ghost function TableBytes(kids: seq<Node>, s: nat): seq<byte> {
    Apply(InPrefixOrder(KidWrites(kids, s), 0, LastKid(kids)), Padding(TableSize(Names(kids))))
  }

  function LastKid(kids: seq<Node>): int {
    |kids| - 1
  }

  /** The table holds every child's record, each pointing at its two subtrees. */
  ghost predicate TableHolds(table: seq<byte>, kids: seq<Node>, s: nat) {
    && |table| == TableSize(Names(kids))
    && AllStored(table, KidWrites(kids, s), 0, LastKid(kids))
    && (kids == [] ==> table == Padding(2048))
  }

  ghost function Slots(kids: seq<Node>): seq<Slot> {
    seq(|kids|, i requires 0 <= i < |kids| => Slot(RecordOffset(Names(kids), i), 14 + |kids[i].name|))
  }

  lemma SlotsDisjoint(kids: seq<Node>)
    ensures DisjointSlots(Slots(kids), TableSize(Names(kids)))
  {
    var names, slots := Names(kids), Slots(kids);
    forall i, j | 0 <= i < |slots| && 0 <= j < |slots| && i != j
      ensures slots[i].off + slots[i].len <= slots[j].off || slots[j].off + slots[j].len <= slots[i].off
    {
      RecordsDisjoint(names, i, j);
    }
    forall i | 0 <= i < |slots| ensures slots[i].off + slots[i].len <= TableSize(names) {
      RecordInTable(names, i);
    }
  }

  lemma KidWritesFill(kids: seq<Node>, s: nat)
    ensures FillsSlots(KidWrites(kids, s), Slots(kids))
  {
    var rec, slots := KidWrites(kids, s), Slots(kids);
    forall lo, hi | 0 <= lo <= hi < |slots|
      ensures rec(lo, hi).off == slots[Mid(lo, hi)].off && |rec(lo, hi).data| == slots[Mid(lo, hi)].len
    {
      assert rec(lo, hi) == KidWrite(kids, s, lo, hi);
    }
  }

  /** Storing the records one after the other leaves a table that holds all of them. */
  lemma TableBytesHold(kids: seq<Node>, s: nat)
    ensures TableHolds(TableBytes(kids, s), kids, s)
  {
    SlotsDisjoint(kids);
    KidWritesFill(kids, s);
    if kids == [] {
      TableSectorsPositive(Names(kids));
    }
    StoresHold(KidWrites(kids, s), Slots(kids), Padding(TableSize(Names(kids))), LastKid(kids));
  }

  // ---- Reading records ----

  function ParseRecord(buf: seq<byte>, off: nat): Option<Entry> {
    if off + 14 > |buf| then None
    else if off + 14 + buf[off + 13] > |buf| then None
    else
      Some(Entry(buf[off + 14..off + 14 + buf[off + 13]], RdLe32(buf, off + 4), RdLe32(buf, off + 8), buf[off + 12]))
  }

  function ReadLr(buf: seq<byte>, off: nat): (u16, u16) {
    if off + 4 > |buf| then (NULL_CHILD, NULL_CHILD)
    else (RdLe16(buf, off), RdLe16(buf, off + 2))
  }

  /** Parsing inverts record encoding wherever the record sits. */
  lemma ParseBack(buf: seq<byte>, off: nat, l: u16, r: u16, start: u32, size: u32, isDir: bool, name: Name)
    requires At(buf, off, RecordBytes(l, r, start, size, isDir, name))
    ensures ParseRecord(buf, off) == Some(Entry(name, start, size, Attributes(isDir)))
    ensures Entry(name, start, size, Attributes(isDir)).IsDir() <==> isDir
    ensures ReadLr(buf, off) == (l, r)
  {
    var rec := RecordBytes(l, r, start, size, isDir, name);
    assert rec[0..2] == Le16(l);
    AtPart(buf, off, rec, Le16(l), 0);
    ReadBack16(buf, off, l);
    assert rec[2..4] == Le16(r);
    AtPart(buf, off, rec, Le16(r), 2);
    ReadBack16(buf, off + 2, r);
    assert rec[4..8] == Le32(start);
    AtPart(buf, off, rec, Le32(start), 4);
    ReadBack32(buf, off + 4, start);
    assert rec[8..12] == Le32(size);
    AtPart(buf, off, rec, Le32(size), 8);
    ReadBack32(buf, off + 8, size);
    assert rec[12..14] == [Attributes(isDir), |name|];
    AtPart(buf, off, rec, [Attributes(isDir), |name|], 12);
    var tail := buf[off + 12..off + 14];
    assert buf[off + 12] == tail[0] && buf[off + 13] == tail[1];
    assert rec[14..14 + |name|] == name;
    AtPart(buf, off, rec, name, 14);
  }
}
