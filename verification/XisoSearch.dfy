/** A written directory table is a balanced search tree (xiso.cpp: write_dirtable, ci_less). */
module XisoSearch {
  import opened Bytes
  import opened Numbers
  import opened Wrappers
  import opened XisoLayout
  import opened XisoTree
  import opened XisoTable
  import opened XisoReader

  // ---- Levels of a balanced tree ----

  function Levels(n: nat): nat {
    if n == 0 then 0 else 1 + Levels(n / 2)
  }

  /** `Levels(n)` is floor(log2 n) + 1. */
  lemma {:induction false} LevelsLog(n: nat)
    requires n > 0
    ensures Pow2(Levels(n) - 1) <= n < Pow2(Levels(n))
  {
    if n > 1 {
      LevelsLog(n / 2);
    }
  }

  lemma {:induction false} LevelsMonotone(m: nat, n: nat)
    requires m <= n
    ensures Levels(m) <= Levels(n)
  {
    if m > 0 {
      LevelsMonotone(m / 2, n / 2);
    }
  }

  /** Both halves of a range have at least one level less than the range. */
  lemma HalvesShallower(lo: int, hi: int)
    requires 0 <= lo <= hi
    ensures Levels(Mid(lo, hi) - lo) < Levels(hi - lo + 1)
    ensures Levels(hi - Mid(lo, hi)) < Levels(hi - lo + 1)
  {
    LevelsMonotone(Mid(lo, hi) - lo, (hi - lo + 1) / 2);
    LevelsMonotone(hi - Mid(lo, hi), (hi - lo + 1) / 2);
  }

  // ---- Reading the tree through its pointers ----

  /** Search a table for a name by case-insensitive comparison, reading at most `steps`
      records: the offset of the record found, if any. */
  function Descend(table: seq<byte>, off: nat, key: seq<byte>, steps: nat): Option<nat>
    decreases steps, 0
  {
    if steps == 0 then None
    else
      match ParseRecord(table, off)
      case None => None
      case Some(e) =>
        if CiLess(key, e.name) then Follow(table, ReadLr(table, off).0, key, steps - 1)
        else if CiLess(e.name, key) then Follow(table, ReadLr(table, off).1, key, steps - 1)
        else Some(off)
  }

  function Follow(table: seq<byte>, pointer: u16, key: seq<byte>, steps: nat): Option<nat>
    decreases steps, 1
  {
    if pointer == NULL_CHILD || pointer == PAD_SHORT then None
    else Descend(table, pointer * 4, key, steps)
  }

  /** The names met when every record is visited between its left and its right subtree. */
  function NamesBelow(table: seq<byte>, pointer: u16, steps: nat): seq<seq<byte>>
    decreases steps, 1
  {
    if pointer == PAD_SHORT then [] else NamesFrom(table, pointer * 4, steps)
  }

  function NamesFrom(table: seq<byte>, off: nat, steps: nat): seq<seq<byte>>
    decreases steps, 0
  {
    if steps == 0 then []
    else
      match ParseRecord(table, off)
      case None => []
      case Some(e) =>
        NamesBelow(table, ReadLr(table, off).0, steps - 1) + [e.name]
        + NamesBelow(table, ReadLr(table, off).1, steps - 1)
  }

  ghost predicate StrictlySorted(kids: seq<Node>) {
    forall i, j :: 0 <= i < j < |kids| ==> CiLess(kids[i].name, kids[j].name)
  }

  /** The names differ by more than case. */
  ghost predicate DistinctNames(kids: seq<Node>) {
    forall i, j :: 0 <= i < j < |kids| ==> !CiEqual(kids[i].name, kids[j].name)
  }

  /** Sorted children whose names differ by more than case are strictly sorted. */
  lemma DistinctStrictlySorted(kids: seq<Node>)
    requires SortedKids(kids) && DistinctNames(kids)
    ensures StrictlySorted(kids)
  {
    forall i, j | 0 <= i < j < |kids| ensures CiLess(kids[i].name, kids[j].name) {
      CiTrichotomy(kids[i].name, kids[j].name);
    }
  }

  /** Descent from the root of a range reaches the record of every name in it, spelled in
      any case, reading no more records than the range has levels. */
  lemma {:induction false} DescentFinds(table: seq<byte>, kids: seq<Node>, s: nat, off: nat, lo: int, hi: int,
                                        i: int, key: seq<byte>, steps: nat)
    requires RangeOk(table, kids, s, off, lo, hi) && TableSize(Names(kids)) <= MAX_TABLE
    requires StrictlySorted(kids) && lo <= i <= hi && steps >= Levels(hi - lo + 1)
    requires CiEqual(kids[i].name, key)
    ensures Descend(table, off, key, steps) == Some(RecordOffset(Names(kids), i))
    decreases hi - lo + 1, 0
  {
    hide ParseRecord, ReadLr, KidEntry, Mid, Pointer, RecordOffset, CiLess, CiEqual, TableSize, RangeOk, ChildOk,
         Follow;
    RangeReads(table, kids, s, off, lo, hi);
    var mid := Mid(lo, hi);
    HalvesOk(table, kids, s, off, lo, hi);
    HalvesShallower(lo, hi);
    EntryName(kids, s, mid);
    CiCongruent(kids[i].name, key, kids[mid].name);
    CiTrichotomy(kids[i].name, kids[mid].name);
    CiTrichotomy(kids[mid].name, kids[mid].name);
    if i < mid {
      FollowFinds(table, kids, s, lo, mid - 1, i, key, steps - 1);
    } else if i > mid {
      FollowFinds(table, kids, s, mid + 1, hi, i, key, steps - 1);
    } else {
      OffsetOf(table, kids, s, off, lo, hi);
    }
  }

  lemma OffsetOf(table: seq<byte>, kids: seq<Node>, s: nat, off: nat, lo: int, hi: int)
    requires 0 <= lo <= hi < |kids| && RangeOk(table, kids, s, off, lo, hi)
    ensures off == RecordOffset(Names(kids), Mid(lo, hi))
  {
  }

  lemma {:induction false} FollowFinds(table: seq<byte>, kids: seq<Node>, s: nat, lo: int, hi: int,
                                       i: int, key: seq<byte>, steps: nat)
    requires 0 <= lo <= i <= hi < |kids| && ChildOk(table, kids, s, lo, hi) && TableSize(Names(kids)) <= MAX_TABLE
    requires StrictlySorted(kids) && steps >= Levels(hi - lo + 1)
    requires CiEqual(kids[i].name, key)
    ensures Follow(table, Pointer(Names(kids), lo, hi), key, steps) == Some(RecordOffset(Names(kids), i))
    decreases hi - lo + 1, 1
  {
    hide Pointer, RecordOffset, CiEqual, TableSize, RangeOk, Descend, Levels, StrictlySorted;
    DescentFinds(table, kids, s, Pointer(Names(kids), lo, hi) * 4, lo, hi, i, key, steps);
  }

  lemma EntryName(kids: seq<Node>, s: nat, i: nat)
    requires i < |kids|
    ensures KidEntry(kids, s, i).name == kids[i].name
  {
  }

  /** Whatever the order of the names, descent only ever finds a record whose name equals
      the key ignoring case. */
  lemma {:induction false} DescentSound(table: seq<byte>, kids: seq<Node>, s: nat, off: nat, lo: int, hi: int,
                                        key: seq<byte>, steps: nat)
    requires RangeOk(table, kids, s, off, lo, hi) && TableSize(Names(kids)) <= MAX_TABLE
    requires forall i :: lo <= i <= hi ==> !CiEqual(kids[i].name, key)
    ensures Descend(table, off, key, steps) == None
    decreases steps
  {
    hide ParseRecord, ReadLr, KidEntry, Mid, Pointer, RecordOffset, CiLess, CiEqual, TableSize, AllStored;
    if steps > 0 {
      var mid := Mid(lo, hi);
      RangeReads(table, kids, s, off, lo, hi);
      HalvesOk(table, kids, s, off, lo, hi);
      EntryName(kids, s, mid);
      CiTrichotomy(kids[mid].name, key);
      if lo <= mid - 1 {
        DescentSound(table, kids, s, Pointer(Names(kids), lo, mid - 1) * 4, lo, mid - 1, key, steps - 1);
      }
      if mid + 1 <= hi {
        DescentSound(table, kids, s, Pointer(Names(kids), mid + 1, hi) * 4, mid + 1, hi, key, steps - 1);
      }
    }
  }

  /** Following the pointers in order gives the children's names in order. */
  lemma {:induction false} PointersInOrder(table: seq<byte>, kids: seq<Node>, s: nat, off: nat, lo: int, hi: int,
                                           steps: nat)
    requires RangeOk(table, kids, s, off, lo, hi) && TableSize(Names(kids)) <= MAX_TABLE
    requires steps >= Levels(hi - lo + 1)
    ensures NamesFrom(table, off, steps) == Names(kids)[lo..hi + 1]
    decreases hi - lo + 1, 0
  {
    hide ParseRecord, ReadLr, KidEntry, Mid, Pointer, TableSize, RangeOk, ChildOk, Names, Levels, NamesBelow;
    RangeReads(table, kids, s, off, lo, hi);
    var mid, names := Mid(lo, hi), Names(kids);
    HalvesOk(table, kids, s, off, lo, hi);
    HalvesShallower(lo, hi);
    EntryName(kids, s, mid);
    HalfInOrder(table, kids, s, lo, mid - 1, steps - 1);
    HalfInOrder(table, kids, s, mid + 1, hi, steps - 1);
    JoinNames(names, lo, mid, hi);
  }

  lemma JoinNames(names: seq<Name>, lo: nat, mid: nat, hi: nat)
    requires lo <= mid <= hi < |names|
    ensures names[lo..mid] + [names[mid]] + names[mid + 1..hi + 1] == names[lo..hi + 1]
  {
  }

  lemma {:induction false} HalfInOrder(table: seq<byte>, kids: seq<Node>, s: nat, lo: int, hi: int, steps: nat)
    requires 0 <= lo <= hi + 1 <= |kids| && ChildOk(table, kids, s, lo, hi) && TableSize(Names(kids)) <= MAX_TABLE
    requires steps >= Levels(hi - lo + 1)
    ensures NamesBelow(table, Pointer(Names(kids), lo, hi), steps) == Names(kids)[lo..hi + 1]
    decreases hi - lo + 1, 1
  {
    hide Pointer, TableSize, RangeOk, Levels, NamesFrom, Names;
    if lo <= hi {
      PointersInOrder(table, kids, s, Pointer(Names(kids), lo, hi) * 4, lo, hi, steps);
    }
  }

  // ---- The table as written ----

  /** A search of the table for `key` finds exactly the child of that name, ignoring case, within as
      many records as the tree has levels, and the pointers give the names in order. */
  ghost predicate Searches(table: seq<byte>, kids: seq<Node>, key: seq<byte>) {
    && (forall i :: 0 <= i < |kids| && CiEqual(kids[i].name, key) ==>
          Descend(table, 0, key, Levels(|kids|)) == Some(RecordOffset(Names(kids), i)))
    && ((forall i :: 0 <= i < |kids| ==> !CiEqual(kids[i].name, key)) ==>
          forall steps: nat :: Descend(table, 0, key, steps) == None)
    && NamesFrom(table, 0, Levels(|kids|)) == Names(kids)
  }

  /** In the table written for a sorted directory with distinct names, a search from the
      root within floor(log2 n) + 1 records finds exactly the names of the directory, in
      any case; without the bound it finds nothing more. In order, the pointers give the
      names in order. */
  lemma SearchTree(kids: seq<Node>, s: nat, key: seq<byte>)
    requires kids != [] && StrictlySorted(kids) && TableSize(Names(kids)) <= MAX_TABLE
    ensures Searches(TableBytes(kids, s), kids, key)
  {
    hide TableBytes, TableHolds, RangeOk, Descend, NamesFrom, Levels, CiEqual, StrictlySorted, TableSize, RecordOffset;
    var table, last := TableBytes(kids, s), |kids| - 1;
    TableBytesHold(kids, s);
    RootRange(table, kids, s);
    forall i | 0 <= i < |kids| && CiEqual(kids[i].name, key)
      ensures Descend(table, 0, key, Levels(|kids|)) == Some(RecordOffset(Names(kids), i))
    {
      DescentFinds(table, kids, s, 0, 0, last, i, key, Levels(|kids|));
    }
    if forall i :: 0 <= i < |kids| ==> !CiEqual(kids[i].name, key) {
      forall steps: nat ensures Descend(table, 0, key, steps) == None {
        DescentSound(table, kids, s, 0, 0, last, key, steps);
      }
    }
    PointersInOrder(table, kids, s, 0, 0, last, Levels(|kids|));
    assert Names(kids)[0..last + 1] == Names(kids);
  }
}
