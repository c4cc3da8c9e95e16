/** Captured guest memory of a pixel replay: lazily materialised regions and the page index over
    observations (nv2a_capture.py: PixelMemoryRegion, CapturedPixelMemory). */
module PixelMemory {
  import opened Bytes
  import opened Wrappers

  /** A block of bytes captured at an address. */
  datatype Observation = Observation(address: nat, data: seq<byte>)

  /** The byte an observation holds for an address. */
  function ByteOf(o: Observation, a: nat): Option<byte> {
    if o.address <= a < o.address + |o.data| then Some(o.data[a - o.address]) else None
  }

  // ---- What regions should hold ----

  /** The byte of the oldest observation that covers `a`. */
  function Oldest(obs: seq<Observation>, a: nat): Option<byte> {
    if obs == [] then None
    else match Oldest(obs[..|obs| - 1], a)
      case Some(v) => Some(v)
      case None => ByteOf(obs[|obs| - 1], a)
  }

  /** How many observations cover `a` with a byte other than `v`. */
  function Others(obs: seq<Observation>, a: nat, v: byte): nat {
    if obs == [] then 0
    else
      var b := ByteOf(obs[|obs| - 1], a);
      Others(obs[..|obs| - 1], a, v) + if b.Some? && b.value != v then 1 else 0
  }

  /** How many observations disagree with the oldest one at `a`. */
  function Disagreements(obs: seq<Observation>, a: nat): nat {
    match Oldest(obs, a)
    case None => 0
    case Some(v) => Others(obs, a, v)
  }

  function DisagreementSum(obs: seq<Observation>, lo: nat, hi: nat): nat {
    if hi <= lo then 0 else DisagreementSum(obs, lo, hi - 1) + Disagreements(obs, hi - 1)
  }

  lemma OldestNext(obs: seq<Observation>, o: Observation, a: nat)
    ensures Oldest(obs + [o], a) == if Oldest(obs, a).Some? then Oldest(obs, a) else ByteOf(o, a)
    ensures forall v ::
      Others(obs + [o], a, v) == Others(obs, a, v) + if ByteOf(o, a).Some? && ByteOf(o, a).value != v then 1 else 0
  {
    hide ByteOf;
    assert (obs + [o])[..|obs + [o]| - 1] == obs;
  }

  lemma {:induction false} UncoveredHasNoOthers(obs: seq<Observation>, a: nat, v: byte)
    requires Oldest(obs, a) == None
    ensures Others(obs, a, v) == 0
  {
    hide ByteOf;
    if obs == [] {
    } else {
      UncoveredHasNoOthers(obs[..|obs| - 1], a, v);
    }
  }

  lemma DisagreementsNext(obs: seq<Observation>, o: Observation, a: nat)
    ensures Disagreements(obs + [o], a) == Disagreements(obs, a) +
      if Oldest(obs, a).Some? && ByteOf(o, a).Some? && ByteOf(o, a).value != Oldest(obs, a).value then 1 else 0
  {
    hide ByteOf, Oldest, Others;
    OldestNext(obs, o, a);
    if Oldest(obs, a) == None && ByteOf(o, a).Some? {
      UncoveredHasNoOthers(obs, a, ByteOf(o, a).value);
    }
  }

  lemma {:induction false} SumSplits(obs: seq<Observation>, lo: nat, mid: nat, hi: nat)
    requires lo <= mid <= hi
    ensures DisagreementSum(obs, lo, hi) == DisagreementSum(obs, lo, mid) + DisagreementSum(obs, mid, hi)
  {
    hide Disagreements;
    if mid < hi {
      SumSplits(obs, lo, mid, hi - 1);
    }
  }

  /** Addresses an observation does not cover stay as they are. */
  lemma {:induction false} UncoveredSum(obs: seq<Observation>, o: Observation, lo: nat, hi: nat)
    requires forall a :: lo <= a < hi ==> ByteOf(o, a) == None
    ensures DisagreementSum(obs + [o], lo, hi) == DisagreementSum(obs, lo, hi)
  {
    hide ByteOf, Disagreements, Oldest;
    if lo < hi {
      UncoveredSum(obs, o, lo, hi - 1);
      DisagreementsNext(obs, o, hi - 1);
    }
  }

  lemma {:induction false} NothingDisagrees(lo: nat, hi: nat)
    ensures DisagreementSum([], lo, hi) == 0
  {
    if lo < hi {
      NothingDisagrees(lo, hi - 1);
    }
  }

  // ---- Regions ----

  /** A byte of a region shows what has been observed of its address. */
  ghost predicate ShowsByte(known: bool, value: byte, seen: Option<byte>) {
    known == seen.Some? && value == if seen.Some? then seen.value else 0
  }

  class PixelMemoryRegion {
    const address: nat
    var data: seq<byte>
    var known: seq<bool>
    var cursor: nat

    constructor (address: nat, size: nat)
      ensures this.address == address && data == Zeros(size) && known == seq(size, _ => false) && cursor == 0
    {
      this.address := address;
      data, known := Zeros(size), seq(size, _ => false);
      cursor := 0;
    }

    /** The bytes of addresses in [lo, hi) show the observations. */
    ghost predicate Shows(seen: seq<Observation>, lo: nat, hi: nat)
      reads this
    {
      && |known| == |data| && address <= lo && hi <= address + |data|
      && forall a :: lo <= a < hi ==> ShowsByte(known[a - address], data[a - address], Oldest(seen, a))
    }

    /** One byte of an overlay. */
    method OverlayByte(target: nat, value: byte, ghost shown: Option<byte>) returns (conflict: nat)
      requires target < |data| == |known| && ShowsByte(known[target], data[target], shown)
      modifies this`data, this`known
      ensures |data| == |known| == old(|data|)
      ensures ShowsByte(known[target], data[target], if shown.Some? then shown else Some(value))
      ensures forall k :: 0 <= k < |data| && k != target ==> known[k] == old(known[k]) && data[k] == old(data[k])
      ensures conflict == Contradicts(shown, value)
    {
      conflict := 0;
      if known[target] {
        if data[target] != value {
          conflict := 1;
        }
      } else {
        data := data[target := value];
        known := known[target := true];
      }
    }

    /** Overlay an observation on the bytes not known yet, from `minimum` on; count the known
        bytes it disagrees with. */
    method OverlayUnknown(o: Observation, minimum: nat, ghost seen: seq<Observation>,
                          ghost lo: nat) returns (conflicts: nat)
      requires lo == (if minimum < address then address else minimum) && lo <= address + |data|
      requires Shows(seen, lo, address + |data|)
      modifies this`data, this`known
      ensures |data| == old(|data|) && Shows(seen + [o], lo, address + |data|)
      ensures forall k :: 0 <= k < lo - address ==> known[k] == old(known[k]) && data[k] == old(data[k])
      ensures conflicts + DisagreementSum(seen, lo, address + |data|) ==
        DisagreementSum(seen + [o], lo, address + |data|)
    {
      hide Oldest, DisagreementSum, Contradicts, ShowsByte, ByteOf;
      conflicts := 0;
      var begin := if address < o.address then o.address else address;
      begin := if begin < minimum then minimum else begin;
      var end := if address + |data| < o.address + |o.data| then address + |data| else o.address + |o.data|;
      ghost var top := address + |data|;
      if end <= begin {
        Uncovered(o, lo, top);
        Unaffected(seen, o, lo, top);
        return;
      }
      Uncovered(o, lo, begin);
      Uncovered(o, end, top);
      Unaffected(seen, o, lo, begin);
      Unaffected(seen, o, end, top);
      var absolute := begin;
      while absolute < end
        invariant begin <= absolute <= end
        invariant |data| == old(|data|) == |known|
        invariant forall k :: 0 <= k < lo - address ==> known[k] == old(known[k]) && data[k] == old(data[k])
        invariant Shows(seen + [o], lo, absolute) && Shows(seen, absolute, top)
        invariant conflicts + DisagreementSum(seen, lo, absolute) == DisagreementSum(seen + [o], lo, absolute)
      {
        var target, source := absolute - address, absolute - o.address;
        Covered(o, absolute);
        ByteNext(seen, o, lo, absolute);
        var conflict := OverlayByte(target, o.data[source], Oldest(seen, absolute));
        conflicts := conflicts + conflict;
        absolute := absolute + 1;
      }
      SumSplits(seen, lo, end, top);
      SumSplits(seen + [o], lo, end, top);
    }

    ghost function Sum(seen: seq<Observation>): nat
      reads this
    {
      DisagreementSum(seen, address, address + |data|)
    }

    /** Overlay the observations the region has not seen yet. */
    method CatchUp(observations: seq<Observation>) returns (conflicts: nat)
      requires cursor <= |observations| && Shows(observations[..cursor], address, address + |data|)
      modifies this`data, this`known, this`cursor
      ensures |data| == old(|data|) && Shows(observations, address, address + |data|) && cursor == |observations|
      ensures conflicts + old(Sum(observations[..cursor])) == Sum(observations)
    {
      hide DisagreementSum;
      conflicts := 0;
      for i := cursor to |observations|
        invariant |data| == old(|data|) && cursor == old(cursor)
        invariant Shows(observations[..i], address, address + |data|)
        invariant conflicts + old(Sum(observations[..cursor])) == Sum(observations[..i])
      {
        assert observations[..i] + [observations[i]] == observations[..i + 1];
        var c := OverlayUnknown(observations[i], address, observations[..i], address);
        conflicts := conflicts + c;
      }
      assert observations[..|observations|] == observations;
      cursor := |observations|;
    }

    /** Extend the region and overlay what it has seen on the new bytes only. */
    method Grow(size: nat, observations: seq<Observation>) returns (conflicts: nat)
      requires |data| < size && cursor <= |observations| && Shows(observations[..cursor], address, address + |data|)
      modifies this`data, this`known
      ensures |data| == size && Shows(observations[..cursor], address, address + size)
      ensures conflicts + old(Sum(observations[..cursor])) == Sum(observations[..cursor])
    {
      hide DisagreementSum, Oldest;
      ghost var seen := observations[..cursor];
      var oldEnd := address + |data|;
      var growth := size - |data|;
      data, known := data + Zeros(growth), known + seq(growth, _ => false);
      conflicts := 0;
      ghost var end := address + size;
      ShowsNothing(oldEnd);
      NothingDisagrees(oldEnd, end);
      for i := 0 to cursor
        invariant |data| == size && cursor == old(cursor)
        invariant Shows(observations[..i], oldEnd, end)
        invariant forall k :: 0 <= k < old(|data|) ==> known[k] == old(known[k]) && data[k] == old(data[k])
        invariant conflicts + 0 == DisagreementSum(observations[..i], oldEnd, end)
      {
        assert observations[..i] + [observations[i]] == observations[..i + 1];
        var c := OverlayUnknown(observations[i], oldEnd, observations[..i], oldEnd);
        conflicts := conflicts + c;
      }
      SumSplits(seen, address, oldEnd, end);
    }

    lemma ShowsNothing(lo: nat)
      requires address <= lo && |known| == |data|
      requires forall k :: lo - address <= k < |data| ==> !known[k] && data[k] == 0
      ensures Shows([], lo, address + |data|)
    {
    }
  }

  lemma Covered(o: Observation, a: nat)
    requires o.address <= a < o.address + |o.data|
    ensures ByteOf(o, a) == Some(o.data[a - o.address])
  {
  }

  lemma Uncovered(o: Observation, from: nat, to: nat)
    requires to <= from || |o.data| == 0 || to <= o.address || o.address + |o.data| <= from
    ensures forall a :: from <= a < to ==> ByteOf(o, a) == None
  {
  }

  /** An observation that covers nothing of a range leaves what is seen there as it is. */
  lemma Unaffected(seen: seq<Observation>, o: Observation, lo: nat, hi: nat)
    requires forall a :: lo <= a < hi ==> ByteOf(o, a) == None
    ensures forall a :: lo <= a < hi ==> Oldest(seen + [o], a) == Oldest(seen, a)
    ensures DisagreementSum(seen + [o], lo, hi) == DisagreementSum(seen, lo, hi)
  {
    hide ByteOf, Oldest, DisagreementSum;
    UncoveredSum(seen, o, lo, hi);
    forall a | lo <= a < hi
      ensures Oldest(seen + [o], a) == Oldest(seen, a)
    {
      OldestNext(seen, o, a);
    }
  }

  /** 1 when a known byte and an observed one differ. */
  function Contradicts(shown: Option<byte>, value: byte): nat {
    if shown.Some? && shown.value != value then 1 else 0
  }

  lemma ByteNext(seen: seq<Observation>, o: Observation, lo: nat, a: nat)
    requires lo <= a && ByteOf(o, a).Some?
    ensures Oldest(seen + [o], a) == if Oldest(seen, a).Some? then Oldest(seen, a) else ByteOf(o, a)
    ensures DisagreementSum(seen + [o], lo, a + 1) - DisagreementSum(seen, lo, a + 1)
      == DisagreementSum(seen + [o], lo, a) - DisagreementSum(seen, lo, a)
        + Contradicts(Oldest(seen, a), ByteOf(o, a).value)
  {
    hide ByteOf, Oldest, DisagreementSum, Disagreements;
    OldestNext(seen, o, a);
    DisagreementsNext(seen, o, a);
    SumNext(seen, lo, a);
    SumNext(seen + [o], lo, a);
  }

  lemma SumNext(obs: seq<Observation>, lo: nat, a: nat)
    requires lo <= a
    ensures DisagreementSum(obs, lo, a + 1) == DisagreementSum(obs, lo, a) + Disagreements(obs, a)
  {
  }

  // ---- The page index ----

  const PAGE: nat := 4096

  /** The observation holds a byte of the page. */
  predicate Touches(o: Observation, page: nat) {
    |o.data| > 0 && o.address / PAGE <= page <= (o.address + |o.data| - 1) / PAGE
  }

  function Listed(pages: map<nat, seq<nat>>, page: nat): seq<nat> {
    if page in pages then pages[page] else []
  }

  /** Every page lists exactly the observations that touch it. */
  ghost predicate Indexed(pages: map<nat, seq<nat>>, obs: seq<Observation>) {
    forall page: nat, i: nat :: Lists(pages, obs, page, i)
  }

  ghost predicate Lists(pages: map<nat, seq<nat>>, obs: seq<Observation>, page: nat, i: nat) {
    i in Listed(pages, page) <==> i < |obs| && Touches(obs[i], page)
  }

  method IndexObservation(pages: map<nat, seq<nat>>, index: nat, o: Observation) returns (r: map<nat, seq<nat>>)
    ensures forall page: nat, i: nat ::
      i in Listed(r, page) <==> i in Listed(pages, page) || (i == index && Touches(o, page))
  {
    hide Listed, Touches;
    r := pages;
    TouchedPages(o);
    if o.data != [] {
      var page := o.address / PAGE;
      var last := (o.address + |o.data| - 1) / PAGE;
      ghost var first := page;
      FirstBeforeLast(o);
      while page < last + 1
        invariant first <= page <= last + 1
        invariant forall p: nat, i: nat ::
          i in Listed(r, p) <==> i in Listed(pages, p) || (i == index && first <= p < page)
      {
        ListedMore(r, page, index);
        r := r[page := Listed(r, page) + [index]];
        page := page + 1;
      }
    }
  }

  lemma TouchedPages(o: Observation)
    ensures o.data == [] ==> forall page: nat :: !Touches(o, page)
    ensures o.data != [] ==>
      forall page: nat :: Touches(o, page) <==> o.address / PAGE <= page <= (o.address + |o.data| - 1) / PAGE
  {
  }

  lemma ListedMore(pages: map<nat, seq<nat>>, page: nat, index: nat)
    ensures var r := pages[page := Listed(pages, page) + [index]];
      forall p: nat, i: nat :: i in Listed(r, p) <==> i in Listed(pages, p) || (i == index && p == page)
  {
    var r := pages[page := Listed(pages, page) + [index]];
    forall p: nat, i: nat
      ensures i in Listed(r, p) <==> i in Listed(pages, p) || (i == index && p == page)
    {
      assert Listed(r, p) == if p == page then Listed(pages, page) + [index] else Listed(pages, p);
    }
  }

  lemma FirstBeforeLast(o: Observation)
    requires |o.data| > 0
    ensures o.address / PAGE <= (o.address + |o.data| - 1) / PAGE
  {
    PageMonotone(o.address, o.address + |o.data| - 1);
  }

  lemma PageMonotone(a: nat, b: nat)
    requires a <= b
    ensures a / PAGE <= b / PAGE
  {
  }

  lemma IndexedNext(pages: map<nat, seq<nat>>, r: map<nat, seq<nat>>, obs: seq<Observation>, o: Observation)
    requires Indexed(pages, obs)
    requires forall page: nat, i: nat ::
      i in Listed(r, page) <==> i in Listed(pages, page) || (i == |obs| && Touches(o, page))
    ensures Indexed(r, obs + [o])
  {
    hide Touches, Listed;
    forall page: nat, i: nat
      ensures Lists(r, obs + [o], page, i)
    {
      assert Lists(pages, obs, page, i);
      if i < |obs| {
        assert (obs + [o])[i] == obs[i];
      }
    }
  }

  lemma NothingIndexed()
    ensures Indexed(map[], [])
  {
    forall page: nat, i: nat
      ensures Lists(map[], [], page, i)
    {
      assert Listed(map[], page) == [];
    }
  }

  // ---- The memory ----

  /** Where a region is and how long. */
  datatype Extent = Extent(address: nat, size: nat)

  /** All disagreements within the extents. */
  function Total(obs: seq<Observation>, extents: seq<Extent>): nat {
    if extents == [] then 0
    else
      var e := extents[|extents| - 1];
      Total(obs, extents[..|extents| - 1]) + DisagreementSum(obs, e.address, e.address + e.size)
  }

  /** The extents after a region of `size` bytes has been asked for. */
  function Ensured(extents: seq<Extent>, address: nat, size: nat): seq<Extent> {
    if extents == [] then [Extent(address, size)]
    else if extents[0].address == address then
      [Extent(address, if extents[0].size < size then size else extents[0].size)] + extents[1..]
    else [extents[0]] + Ensured(extents[1..], address, size)
  }

  class CapturedPixelMemory {
    var observations: seq<Observation>
    var pages: map<nat, seq<nat>>
    var regions: seq<PixelMemoryRegion>
    var conflicts: nat

    ghost predicate Distinct()
      reads this
    {
      forall i, j :: 0 <= i < j < |regions| ==> regions[i] != regions[j] && regions[i].address != regions[j].address
    }

    ghost function Extents(): seq<Extent>
      reads this, regions
    {
      seq(|regions|, i requires 0 <= i < |regions| reads this, regions => Extent(regions[i].address, |regions[i].data|))
    }

    /** A region has caught up with the observations. */
    static ghost predicate Current(r: PixelMemoryRegion, obs: seq<Observation>)
      reads r
    {
      r.cursor == |obs| && r.Shows(obs, r.address, r.address + |r.data|)
    }

    /** Every byte of every region is the oldest observation of its address, known if and only if
        there is one; the conflicts are the disagreements within the regions; the page index is
        complete and exact. */
    ghost predicate Valid()
      reads this, regions
    {
      && Distinct()
      && (forall i :: 0 <= i < |regions| ==> Current(regions[i], observations))
      && conflicts == Total(observations, Extents())
      && Indexed(pages, observations)
    }

    constructor ()
      ensures Valid() && observations == [] && regions == []
    {
      observations, pages, regions, conflicts := [], map[], [], 0;
      new;
      NothingIndexed();
    }

    method Observe(o: Observation)
      requires Valid()
      modifies this, regions
      ensures Valid() && observations == old(observations) + [o]
      ensures regions == old(regions) && Extents() == old(Extents())
    {
      hide Total, Indexed, Listed, Touches;
      ghost var seen, before := observations, Extents();
      var indexed := IndexObservation(pages, |observations|, o);
      IndexedNext(pages, indexed, observations, o);
      observations, pages := observations + [o], indexed;
      assert Extents() == before;
      OverlayRegions(o, seen);
    }

    /** Overlay a new observation on every region. */
    method OverlayRegions(o: Observation, ghost seen: seq<Observation>)
      requires observations == seen + [o] && Distinct()
      requires forall i :: 0 <= i < |regions| ==> Current(regions[i], seen)
      requires conflicts == Total(seen, Extents())
      modifies this`conflicts, regions
      ensures Extents() == old(Extents()) && conflicts == Total(observations, Extents())
      ensures forall i :: 0 <= i < |regions| ==> Current(regions[i], observations)
    {
      hide Total, DisagreementSum, Current;
      ghost var extents := Extents();
      TotalOfNone(seen);
      TotalOfNone(observations);
      for i := 0 to |regions|
        invariant Extents() == extents
        invariant forall j :: 0 <= j < i ==> Current(regions[j], observations)
        invariant forall j :: i <= j < |regions| ==> Current(regions[j], seen)
        invariant conflicts + Total(seen, extents[..i]) == Total(seen, extents) + Total(observations, extents[..i])
      {
        TotalNext(seen, extents, i);
        TotalNext(observations, extents, i);
        var c := OverlayRegion(regions[i], o, seen);
        conflicts := conflicts + c;
      }
      assert extents[..|regions|] == extents;
    }

    /** The region that starts at an address, or the number of regions. */
    method Find(address: nat) returns (i: nat)
      ensures i <= |regions|
      ensures i < |regions| ==> regions[i].address == address
      ensures forall j :: 0 <= j < i ==> regions[j].address != address
    {
      i := 0;
      while i < |regions| && regions[i].address != address
        invariant i <= |regions|
        invariant forall j :: 0 <= j < i ==> regions[j].address != address
      {
        i := i + 1;
      }
    }

    /** The region at `address`, with at least `size` bytes. */
    method Ensure(address: nat, size: nat) returns (r: PixelMemoryRegion)
      requires Valid()
      modifies this, regions
      ensures Valid() && observations == old(observations)
      ensures r in regions && r.address == address && size <= |r.data|
      ensures Extents() == Ensured(old(Extents()), address, size)
      ensures |old(regions)| <= |regions| && regions[..|old(regions)|] == old(regions)
      ensures forall i :: |old(regions)| <= i < |regions| ==> fresh(regions[i])
    {
      hide Valid, Ensured;
      ghost var before := Extents();
      var i := Find(address);
      if i == |regions| {
        EnsuredNew(before, address, size);
        AddRegion(address, size);
      } else {
        EnsuredAt(before, address, size, i);
        if |regions[i].data| < size {
          GrowRegion(i, size);
        } else {
          assert before[i := Extent(address, before[i].size)] == before;
        }
      }
      RefreshRegion(i);
      r := regions[i];
      assert Extents()[i].size == |r.data|;
    }

    method AddRegion(address: nat, size: nat)
      requires Valid() && forall j :: 0 <= j < |regions| ==> regions[j].address != address
      modifies this
      ensures Valid() && observations == old(observations)
      ensures |regions| == |old(regions)| + 1 && regions[..|old(regions)|] == old(regions)
      ensures fresh(regions[|old(regions)|]) && regions[|old(regions)|].address == address
      ensures Extents() == old(Extents()) + [Extent(address, size)]
    {
      hide Total, Indexed;
      ghost var before := Extents();
      var r := NewRegion(address, size);
      var c := Materialise(r, observations);
      regions := regions + [r];
      conflicts := conflicts + c;
      assert Extents() == before + [Extent(address, size)];
      TotalOfMore(observations, before, Extent(address, size));
    }

    method GrowRegion(i: nat, size: nat)
      requires Valid() && i < |regions| && |regions[i].data| < size
      modifies this, regions
      ensures Valid() && observations == old(observations) && regions == old(regions)
      ensures Extents() == old(Extents())[i := Extent(regions[i].address, size)]
    {
      hide Total, Indexed, DisagreementSum, Current;
      ghost var before := Extents();
      var c := Extend(regions[i], size, observations);
      conflicts := conflicts + c;
      assert Extents() == before[i := Extent(regions[i].address, size)];
      TotalOfChanged(observations, before, i, Extent(regions[i].address, size));
    }

    method RefreshRegion(i: nat)
      requires Valid() && i < |regions|
      modifies this, regions
      ensures Valid() && observations == old(observations) && regions == old(regions)
      ensures Extents() == old(Extents())
    {
      hide Total, Indexed, DisagreementSum, Current;
      ghost var before := Extents();
      var c := Refresh(regions[i], observations);
      conflicts := conflicts + c;
      assert Extents() == before;
    }

    /** The newest captured bytes of a range, or nothing when a byte was never captured. */
    method ReadObserved(address: nat, size: nat) returns (r: Option<seq<byte>>)
      requires Valid()
      ensures r == if size == 0 then None else NewestBytes(observations, address, size)
    {
      hide Newest, Touches, Listed, ByteOf, Alias, Total, Current;
      var result, known := Zeros(size), seq(size, _ => false);
      var candidates := {};
      if size != 0 {
        candidates := AddCandidates(candidates, pages, observations, address, size);
        candidates := AddCandidates(candidates, pages, observations, Alias(address), size);
      }
      var i: nat := |observations|;
      NewestOfNone(address);
      assert size > 0 ==> known[0] == false;
      assert observations[i..] == [];
      while i > 0
        invariant i <= |observations| && |result| == |known| == size
        invariant forall k :: 0 <= k < size ==>
          ShowsByte(known[k], result[k], Newest(observations[i..], address, k))
        invariant size > 0 ==> false in known
        invariant size == 0 ==> candidates == {}
      {
        i := i - 1;
        var o := observations[i];
        if i in candidates {
          result, known := FillBoth(o, address, size, result, known, observations[i + 1..]);
          Shifted(observations, i);
          if false !in known {
            AllKnown(observations, i, address, size, result, known);
            return Some(result);
          }
        } else {
          NotCandidate(o, observations[i + 1..], address, size);
          Shifted(observations, i);
        }
      }
      assert observations[0..] == observations;
      SomeUnknown(observations, address, size, result, known);
      return None;
    }
  }

  method NewRegion(address: nat, size: nat) returns (r: PixelMemoryRegion)
    ensures fresh(r) && r.address == address && |r.data| == size && r.cursor == 0
    ensures r.Shows([], address, address + size)
  {
    r := new PixelMemoryRegion(address, size);
  }

  method Materialise(r: PixelMemoryRegion, obs: seq<Observation>) returns (c: nat)
    requires r.cursor == 0 && r.Shows([], r.address, r.address + |r.data|)
    modifies r
    ensures |r.data| == old(|r.data|) && CapturedPixelMemory.Current(r, obs)
    ensures c == DisagreementSum(obs, r.address, r.address + |r.data|)
  {
    hide DisagreementSum, Oldest;
    NothingDisagrees(r.address, r.address + |r.data|);
    assert obs[..r.cursor] == [];
    c := r.CatchUp(obs);
  }

  method Extend(r: PixelMemoryRegion, size: nat, obs: seq<Observation>) returns (c: nat)
    requires |r.data| < size && CapturedPixelMemory.Current(r, obs)
    modifies r
    ensures |r.data| == size && CapturedPixelMemory.Current(r, obs)
    ensures c + DisagreementSum(obs, r.address, r.address + old(|r.data|)) ==
      DisagreementSum(obs, r.address, r.address + size)
  {
    hide DisagreementSum, Oldest;
    assert obs[..r.cursor] == obs;
    c := r.Grow(size, obs);
  }

  method Refresh(r: PixelMemoryRegion, obs: seq<Observation>) returns (c: nat)
    requires CapturedPixelMemory.Current(r, obs)
    modifies r
    ensures |r.data| == old(|r.data|) && CapturedPixelMemory.Current(r, obs) && c == 0
  {
    hide DisagreementSum, Oldest;
    assert obs[..r.cursor] == obs;
    c := r.CatchUp(obs);
  }

  lemma TotalOfMore(obs: seq<Observation>, extents: seq<Extent>, e: Extent)
    ensures Total(obs, extents + [e]) == Total(obs, extents) + DisagreementSum(obs, e.address, e.address + e.size)
  {
    assert (extents + [e])[..|extents|] == extents;
  }

  lemma {:induction false} TotalOfChanged(obs: seq<Observation>, extents: seq<Extent>, i: nat, e: Extent)
    requires i < |extents|
    ensures Total(obs, extents[i := e]) + DisagreementSum(obs, extents[i].address, extents[i].address + extents[i].size)
      == Total(obs, extents) + DisagreementSum(obs, e.address, e.address + e.size)
  {
    hide DisagreementSum;
    var init := extents[..|extents| - 1];
    if i == |extents| - 1 {
      assert extents[i := e][..|extents| - 1] == init;
    } else {
      assert extents[i := e][..|extents| - 1] == init[i := e];
      TotalOfChanged(obs, init, i, e);
    }
  }

  lemma {:induction false} EnsuredNew(extents: seq<Extent>, address: nat, size: nat)
    requires forall j :: 0 <= j < |extents| ==> extents[j].address != address
    ensures Ensured(extents, address, size) == extents + [Extent(address, size)]
  {
    if extents != [] {
      EnsuredNew(extents[1..], address, size);
    }
  }

  lemma {:induction false} EnsuredAt(extents: seq<Extent>, address: nat, size: nat, i: nat)
    requires i < |extents| && extents[i].address == address
    requires forall j :: 0 <= j < i ==> extents[j].address != address
    ensures Ensured(extents, address, size)
      == extents[i := Extent(address, if extents[i].size < size then size else extents[i].size)]
  {
    if i > 0 {
      EnsuredAt(extents[1..], address, size, i - 1);
    }
  }

  method OverlayRegion(r: PixelMemoryRegion, o: Observation, ghost seen: seq<Observation>) returns (c: nat)
    requires CapturedPixelMemory.Current(r, seen)
    modifies r
    ensures |r.data| == old(|r.data|) && CapturedPixelMemory.Current(r, seen + [o])
    ensures c + DisagreementSum(seen, r.address, r.address + |r.data|)
      == DisagreementSum(seen + [o], r.address, r.address + |r.data|)
  {
    hide DisagreementSum;
    c := r.OverlayUnknown(o, r.address, seen, r.address);
    r.cursor := r.cursor + 1;
  }

  lemma TotalOfNone(obs: seq<Observation>)
    ensures Total(obs, []) == 0
  {
  }

  lemma TotalNext(obs: seq<Observation>, extents: seq<Extent>, i: nat)
    requires i < |extents|
    ensures Total(obs, extents[..i + 1]) == Total(obs, extents[..i])
      + DisagreementSum(obs, extents[i].address, extents[i].address + extents[i].size)
  {
    assert extents[..i + 1][..i] == extents[..i];
  }

  // ---- Reading what was observed ----

  /** Physical addresses are also seen behind 0x80000000. */
  function Alias(address: nat): nat {
    0x8000_0000 + address % 0x0400_0000
  }

  /** Byte `k` of a range. */
  function ByteAt(o: Observation, from: nat, k: nat): Option<byte> { ByteOf(o, from + k) }

  /** The byte an observation holds for byte `k` of a range, itself or behind its alias. */
  function AtEither(o: Observation, address: nat, k: nat): Option<byte> {
    if ByteAt(o, address, k).Some? then ByteAt(o, address, k) else ByteAt(o, Alias(address), k)
  }

  /** Byte `k` of a range from the newest observation that covers it. */
  function Newest(obs: seq<Observation>, address: nat, k: nat): Option<byte> {
    if obs == [] then None
    else match Newest(obs[1..], address, k)
      case Some(v) => Some(v)
      case None => AtEither(obs[0], address, k)
  }

  /** A range read newest first over both aliases, looking at every observation. */
  function NewestBytes(obs: seq<Observation>, address: nat, size: nat): Option<seq<byte>> {
    if forall k :: 0 <= k < size ==> Newest(obs, address, k).Some? then
      Some(seq(size, k requires 0 <= k < size => Newest(obs, address, k).value))
    else None
  }

  /** No byte of the range is in the observation. */
  ghost predicate Misses(o: Observation, from: nat, size: nat) {
    forall k :: 0 <= k < size ==> ByteAt(o, from, k) == None
  }

  lemma UntouchedPagesMiss(o: Observation, from: nat, size: nat)
    requires forall p :: from / PAGE <= p <= (from + size - 1) / PAGE ==> !Touches(o, p)
    requires size > 0
    ensures Misses(o, from, size)
  {
    forall k | 0 <= k < size
      ensures ByteAt(o, from, k) == None
    {
      if ByteOf(o, from + k).Some? {
        PageMonotone(from, from + k);
        PageMonotone(from + k, from + size - 1);
        PageMonotone(o.address, from + k);
        PageMonotone(from + k, o.address + |o.data| - 1);
        assert Touches(o, (from + k) / PAGE);
      }
    }
  }

  /** The observations listed for the pages of a range. */
  method AddCandidates(candidates: set<nat>, pages: map<nat, seq<nat>>, ghost obs: seq<Observation>, from: nat,
                       size: nat)
    returns (r: set<nat>)
    requires size > 0 && Indexed(pages, obs)
    ensures candidates <= r
    ensures forall i :: 0 <= i < |obs| && i !in r ==> Misses(obs[i], from, size)
  {
    hide Misses, Touches, Listed;
    r := candidates;
    var page, last := from / PAGE, (from + size - 1) / PAGE;
    PageMonotone(from, from + size - 1);
    while page < last + 1
      invariant from / PAGE <= page <= last + 1 && candidates <= r
      invariant forall i, p :: 0 <= i < |obs| && from / PAGE <= p < page && Touches(obs[i], p) ==> i in r
    {
      var listed := Listed(pages, page);
      forall i | 0 <= i < |obs| && Touches(obs[i], page)
        ensures i in listed
      {
        assert Lists(pages, obs, page, i);
      }
      r := r + set i | i in listed;
      page := page + 1;
    }
    forall i | 0 <= i < |obs| && i !in r
      ensures Misses(obs[i], from, size)
    {
      UntouchedPagesMiss(obs[i], from, size);
    }
  }

  /** The bytes not known yet, filled from one observation seen at one alias. */
  method Fill(o: Observation, candidate: nat, size: nat, result: seq<byte>, known: seq<bool>)
    returns (result': seq<byte>, known': seq<bool>)
    requires |result| == |known| == size
    ensures |result'| == |known'| == size
    ensures forall k :: 0 <= k < size ==>
      if known[k] || ByteAt(o, candidate, k) == None then known'[k] == known[k] && result'[k] == result[k]
      else known'[k] && result'[k] == ByteAt(o, candidate, k).value
  {
    result', known' := result, known;
    var begin := if candidate < o.address then o.address else candidate;
    var end := if candidate + size < o.address + |o.data| then candidate + size else o.address + |o.data|;
    var absolute := begin;
    while absolute < end
      invariant begin <= absolute && |result'| == |known'| == size
      invariant forall k :: 0 <= k < size ==>
        if known[k] || ByteAt(o, candidate, k) == None || absolute <= candidate + k
        then known'[k] == known[k] && result'[k] == result[k]
        else known'[k] && result'[k] == ByteAt(o, candidate, k).value
    {
      var target := absolute - candidate;
      if !known'[target] {
        result' := result'[target := o.data[absolute - o.address]];
        known' := known'[target := true];
      }
      absolute := absolute + 1;
    }
  }

  lemma NewestNext(o: Observation, seen: seq<Observation>, address: nat, k: nat)
    ensures Newest([o] + seen, address, k) ==
      if Newest(seen, address, k).Some? then Newest(seen, address, k) else AtEither(o, address, k)
  {
    assert ([o] + seen)[1..] == seen;
  }

  lemma NewestOfNone(address: nat)
    ensures forall k: nat :: Newest([], address, k) == None
  {
  }

  method FillBoth(o: Observation, address: nat, size: nat, result: seq<byte>, known: seq<bool>,
                  ghost seen: seq<Observation>)
    returns (result': seq<byte>, known': seq<bool>)
    requires |result| == |known| == size
    requires forall k :: 0 <= k < size ==> ShowsByte(known[k], result[k], Newest(seen, address, k))
    ensures |result'| == |known'| == size
    ensures forall k :: 0 <= k < size ==> ShowsByte(known'[k], result'[k], Newest([o] + seen, address, k))
  {
    hide ByteAt, Newest, Alias;
    result', known' := Fill(o, address, size, result, known);
    ghost var known1 := known';
    result', known' := Fill(o, Alias(address), size, result', known');
    forall k | 0 <= k < size
      ensures ShowsByte(known'[k], result'[k], Newest([o] + seen, address, k))
    {
      NewestNext(o, seen, address, k);
      assert known1[k] == (known[k] || ByteAt(o, address, k).Some?);
    }
  }

  lemma NotCandidate(o: Observation, seen: seq<Observation>, address: nat, size: nat)
    requires Misses(o, address, size) && Misses(o, Alias(address), size)
    ensures forall k :: 0 <= k < size ==>
      Newest([o] + seen, address, k) == Newest(seen, address, k)
  {
    hide ByteAt, Newest, Alias;
    forall k | 0 <= k < size
      ensures Newest([o] + seen, address, k) == Newest(seen, address, k)
    {
      NewestNext(o, seen, address, k);
    }
  }

  lemma Shifted(obs: seq<Observation>, i: nat)
    requires i < |obs|
    ensures obs[i..] == [obs[i]] + obs[i + 1..]
  {
  }

  lemma {:induction false} NewestStays(obs: seq<Observation>, i: nat, address: nat, k: nat)
    requires i <= |obs| && Newest(obs[i..], address, k).Some?
    ensures Newest(obs, address, k) == Newest(obs[i..], address, k)
  {
    hide AtEither;
    if i == 0 {
      assert obs[0..] == obs;
    } else {
      assert obs[i - 1..][1..] == obs[i..];
      NewestStays(obs, i - 1, address, k);
    }
  }

  lemma AllKnown(obs: seq<Observation>, i: nat, address: nat, size: nat, result: seq<byte>, known: seq<bool>)
    requires i <= |obs| && |result| == |known| == size && false !in known
    requires forall k :: 0 <= k < size ==>
      ShowsByte(known[k], result[k], Newest(obs[i..], address, k))
    ensures NewestBytes(obs, address, size) == Some(result)
  {
    hide Newest, Alias;
    forall k | 0 <= k < size
      ensures Newest(obs, address, k) == Some(result[k])
    {
      assert known[k];
      NewestStays(obs, i, address, k);
    }
    assert seq(size, k requires 0 <= k < size => Newest(obs, address, k).value) == result;
  }

  lemma SomeUnknown(obs: seq<Observation>, address: nat, size: nat, result: seq<byte>, known: seq<bool>)
    requires |result| == |known| == size
    requires forall k :: 0 <= k < size ==> ShowsByte(known[k], result[k], Newest(obs, address, k))
    ensures false in known ==> NewestBytes(obs, address, size) == None
  {
    hide Newest;
    if false in known {
      var k :| 0 <= k < size && !known[k];
      assert Newest(obs, address, k) == None;
    }
  }

  // ---- Any interleaving ----

  /** What a pixel replay asks of the memory. */
  datatype Request = Seen(observation: Observation) | Needed(address: nat, size: nat)

  function ObservationsOf(requests: seq<Request>): seq<Observation> {
    if requests == [] then []
    else
      var last := requests[|requests| - 1];
      ObservationsOf(requests[..|requests| - 1]) + if last.Seen? then [last.observation] else []
  }

  function ExtentsOf(requests: seq<Request>): seq<Extent> {
    if requests == [] then []
    else
      var last := requests[|requests| - 1];
      var extents := ExtentsOf(requests[..|requests| - 1]);
      if last.Needed? then Ensured(extents, last.address, last.size) else extents
  }

  /** However observations and requests for regions interleave, the memory ends up as the
      observations and the extents alone say. */
  method Replay(requests: seq<Request>) returns (m: CapturedPixelMemory)
    ensures m.Valid() && m.observations == ObservationsOf(requests) && m.Extents() == ExtentsOf(requests)
    ensures m.conflicts == Total(ObservationsOf(requests), ExtentsOf(requests))
  {
    hide Total, Indexed, CapturedPixelMemory.Current, Ensured;
    m := new CapturedPixelMemory();
    assert m.Extents() == [];
    for n := 0 to |requests|
      invariant fresh(m) && (forall i :: 0 <= i < |m.regions| ==> fresh(m.regions[i])) && m.Valid()
      invariant m.observations == ObservationsOf(requests[..n]) && m.Extents() == ExtentsOf(requests[..n])
    {
      assert requests[..n + 1][..n] == requests[..n];
      ghost var regions := m.regions;
      match requests[n] {
        case Seen(o) => m.Observe(o);
        case Needed(address, size) => var r := m.Ensure(address, size);
      }
      assert forall i :: 0 <= i < |regions| ==> m.regions[i] == m.regions[..|regions|][i];
    }
    assert requests[..|requests|] == requests;
  }
}
