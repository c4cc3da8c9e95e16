/** How tightly the records of a directory table follow each other (xiso.cpp: record_length,
    calc_dir_size). */
module XisoPacking {
  import opened Bytes
  import opened XisoLayout

  /** A record takes the least multiple of 4 that holds its 14 bytes of prefix and its name. */
  lemma RecordLengthLeast(name: Name)
    ensures RecordLength(name) % 4 == 0 && 14 + |name| <= RecordLength(name) < 14 + |name| + 4
  {
    RecordLengthDwords(name);
  }

  /** The middle of a range: as many to its left as to its right, or one fewer. */
  lemma MidHalves(lo: int, hi: int)
    requires 0 <= lo <= hi
    ensures Mid(lo, hi) - lo <= hi - Mid(lo, hi) <= Mid(lo, hi) - lo + 1
  {
  }

  /** `j` comes directly behind `i` in prefix order. */
  ghost predicate Follows(lo: int, hi: int, i: int, j: int)
    requires 0 <= lo <= i <= hi && lo <= j <= hi
  {
    && PrefixBefore(lo, hi, i, j)
    && forall k :: lo <= k <= hi ==> !(PrefixBefore(lo, hi, i, k) && PrefixBefore(lo, hi, k, j))
  }

  /** The last index of a range is also the last in prefix order. */
  lemma {:induction false} LastIsLast(lo: int, hi: int, k: int)
    requires 0 <= lo <= k < hi
    ensures PrefixBefore(lo, hi, k, hi)
    decreases hi - lo
  {
    hide Mid;
    var mid := Mid(lo, hi);
    MidHalves(lo, hi);
    if k > mid {
      LastIsLast(mid + 1, hi, k);
    }
  }

  /** The cursor behind a record. */
  ghost function Behind(p: Cursor, d: nat): Cursor {
    Cursor(p.sector, p.used + d)
  }

  /** A range ends where its last record ends. */
  lemma {:induction false} EndBehindLast(names: seq<Name>, lo: int, hi: int, c: Cursor)
    requires Range(names, lo, hi) && lo <= hi && c.Valid()
    ensures EndOf(names, lo, hi, c)
      == Behind(PlaceIn(names, lo, hi, c, hi), Dwords(names[hi]))
    decreases hi - lo
  {
    hide Dwords, Mid;
    var mid := Mid(lo, hi);
    MidHalves(lo, hi);
    if mid < hi {
      EndBehindLast(names, mid + 1, hi, EndOf(names, lo, mid - 1, c.After(Dwords(names[mid]))));
    }
  }

  /** A range starts with its middle record. */
  lemma MidFirst(names: seq<Name>, lo: int, hi: int, c: Cursor)
    requires Range(names, lo, hi) && lo <= hi && c.Valid()
    ensures PlaceIn(names, lo, hi, c, Mid(lo, hi)) == c.Skip(Dwords(names[Mid(lo, hi)]))
  {
  }

  lemma BetweenLeft(lo: int, hi: int, i: int, j: int)
    requires 0 <= lo <= i <= hi && lo <= j <= hi && Follows(lo, hi, i, j) && i < Mid(lo, hi) < j
    ensures i == Mid(lo, hi) - 1 && j == Mid(Mid(lo, hi) + 1, hi)
  {
    hide Mid;
    var mid := Mid(lo, hi);
    var last, first := mid - 1, Mid(mid + 1, hi);
    assert PrefixBefore(lo, hi, last, j) && !PrefixBefore(lo, hi, i, last);
    if i != last {
      LastIsLast(lo, mid - 1, i);
    }
    if j != first {
      assert PrefixBefore(lo, hi, i, first) && PrefixBefore(lo, hi, first, j);
    }
  }

  lemma BehindMid(lo: int, hi: int, j: int)
    requires 0 <= lo <= hi && lo <= j <= hi && Follows(lo, hi, Mid(lo, hi), j)
    ensures if j < Mid(lo, hi) then j == Mid(lo, Mid(lo, hi) - 1)
            else j == Mid(Mid(lo, hi) + 1, hi) && lo == Mid(lo, hi)
  {
    hide Mid;
    var mid := Mid(lo, hi);
    var first := if j < mid then Mid(lo, mid - 1) else Mid(mid + 1, hi);
    if j != first {
      assert PrefixBefore(lo, hi, mid, first) && PrefixBefore(lo, hi, first, j);
    }
    assert j > mid && lo < mid ==> PrefixBefore(lo, hi, mid, lo) && PrefixBefore(lo, hi, lo, j);
  }

  lemma FollowsInside(lo: int, hi: int, lo': int, hi': int, i: int, j: int)
    requires 0 <= lo <= lo' <= i <= hi' <= hi && lo' <= j <= hi' && Follows(lo, hi, i, j)
    requires (lo' == lo && hi' == Mid(lo, hi) - 1) || (lo' == Mid(lo, hi) + 1 && hi' == hi)
    ensures Follows(lo', hi', i, j)
  {
    hide Mid;
    forall k | lo' <= k <= hi' && PrefixBefore(lo', hi', i, k) ensures !PrefixBefore(lo', hi', k, j) {
      assert PrefixBefore(lo, hi, i, k);
      assert !PrefixBefore(lo, hi, k, j);
    }
  }

  /** The next record in prefix order goes to the end of the one before, or to the next sector. */
  lemma {:induction false} PlacedBehind(names: seq<Name>, lo: int, hi: int, c: Cursor, i: int, j: int)
    requires Range(names, lo, hi) && lo <= i <= hi && lo <= j <= hi && c.Valid() && Follows(lo, hi, i, j)
    ensures PlaceIn(names, lo, hi, c, j)
      == Behind(PlaceIn(names, lo, hi, c, i), Dwords(names[i])).Skip(Dwords(names[j]))
    decreases hi - lo
  {
    hide Dwords, Mid, Follows;
    var mid := Mid(lo, hi);
    var left := c.After(Dwords(names[mid]));
    NotBeforeMid(lo, hi, i, j);
    if i == mid {
      BehindMid(lo, hi, j);
      if j < mid {
        MidFirst(names, lo, mid - 1, left);
      } else {
        MidFirst(names, mid + 1, hi, left);
      }
    } else if i < mid && j > mid {
      BetweenLeft(lo, hi, i, j);
      EndBehindLast(names, lo, mid - 1, left);
      MidFirst(names, mid + 1, hi, EndOf(names, lo, mid - 1, left));
    } else if i < mid {
      FollowsInside(lo, hi, lo, mid - 1, i, j);
      PlacedBehind(names, lo, mid - 1, left, i, j);
    } else {
      FollowsInside(lo, hi, mid + 1, hi, i, j);
      PlacedBehind(names, mid + 1, hi, EndOf(names, lo, mid - 1, left), i, j);
    }
  }

  lemma NotBeforeMid(lo: int, hi: int, i: int, j: int)
    requires 0 <= lo <= i <= hi && lo <= j <= hi && Follows(lo, hi, i, j)
    ensures j != Mid(lo, hi) && (i > Mid(lo, hi) ==> j > Mid(lo, hi))
  {
    hide Mid;
  }

  /** Where a record of `length` bytes goes that may start at `at`. */
  lemma SkipBytes(p: Cursor, d: nat, length: nat, e: nat, length': nat)
    requires p.used + d < 512 && e < 512 && length == 4 * d && length' == 4 * e
    ensures var end := p.Pos() + length;
      Behind(p, d).Skip(e).Pos() == if (end + length') / 2048 > end / 2048 then (end / 2048 + 1) * 2048 else end
  {
    var end := p.Pos() + length;
    assert end / 2048 == p.sector;
    assert (end + length') / 2048 == if p.used + d + e >= 512 then p.sector + 1 else p.sector;
  }

  /** Records are packed: the next record in prefix order starts where the one before ends, unless
      it would reach the end of that sector; then it starts the next sector. */
  lemma RecordsPacked(names: seq<Name>, i: nat, j: nat)
    requires i < |names| && j < |names| && Follows(0, |names| - 1, i, j)
    ensures var end := RecordOffset(names, i) + RecordLength(names[i]);
      RecordOffset(names, j) ==
      if (end + RecordLength(names[j])) / 2048 > end / 2048 then (end / 2048 + 1) * 2048 else end
  {
    hide PlaceIn, Follows, RecordLength, Dwords, Cursor.Skip, Cursor.Pos, Behind;
    var lo, hi, c := Whole(names);
    FirstValid(c);
    LaidOut(names, lo, hi, c);
    PlacedBehind(names, lo, hi, c, i, j);
    RecordPlaced(names, lo, hi, c, i);
    RecordLengthDwords(names[i]);
    RecordLengthDwords(names[j]);
    ShortRecord(names[j]);
    SkipBytes(PlaceIn(names, lo, hi, c, i), Dwords(names[i]), RecordLength(names[i]), Dwords(names[j]),
              RecordLength(names[j]));
  }

  lemma FirstValid(c: Cursor)
    requires c.First()
    ensures c.Valid()
  {
  }

  lemma ShortRecord(name: Name)
    ensures Dwords(name) < 512
  {
  }

  /** The table ends with the sector its last record ends in. */
  lemma TableEnds(names: seq<Name>)
    requires names != []
    ensures var last := |names| - 1;
      TableSize(names) == (RecordOffset(names, last) + RecordLength(names[last]) + 2047) / 2048 * 2048
  {
    hide PlaceIn, RecordLength, Dwords, EndOf, Cursor.Pos, Cursor.Sectors, Behind;
    var lo, hi, c := Whole(names);
    FirstValid(c);
    LaidOut(names, lo, hi, c);
    EndBehindLast(names, lo, hi, c);
    RecordPlaced(names, lo, hi, c, hi);
    RecordLengthDwords(names[hi]);
    SectorsOfEnd(PlaceIn(names, lo, hi, c, hi), Dwords(names[hi]), RecordLength(names[hi]));
  }

  lemma SectorsOfEnd(p: Cursor, d: nat, length: nat)
    requires p.used + d < 512 && length == 4 * d
    ensures 2048 * Behind(p, d).Sectors() == (p.Pos() + length + 2047) / 2048 * 2048
  {
    assert (p.Pos() + length + 2047) / 2048 == Behind(p, d).Sectors();
  }
}
