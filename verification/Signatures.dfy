/** Byte-pair signatures of library functions: choosing them from a body and scanning an image for
    them (tools/oovpa/gen_oovpa.py: pick_pairs, count_matches, find_matches;
    tools/oovpa/scan_oovpa.py: find_matches). */
module Signatures {
  import opened Bytes
  import opened Numbers
  import opened Wrappers

  /** A function body and the offsets of its relocated dwords. */
  datatype Body = Body(data: seq<byte>, relocs: seq<nat>)

  /** A byte at an offset. */
  type Pair = (nat, byte)

  /** The offset is inside a relocated dword. */
  predicate Masked(relocs: seq<nat>, o: nat) {
    exists k :: 0 <= k < |relocs| && relocs[k] <= o < relocs[k] + 4
  }

  /** The body lies at `base`; relocated dwords may hold anything. */
  ghost predicate Placed(img: seq<byte>, base: nat, f: Body) {
    && base + |f.data| <= |img|
    && forall o :: 0 <= o < |f.data| && !Masked(f.relocs, o) ==> img[base + o] == f.data[o]
  }

  // ---- Choosing pairs ----

  predicate Usable(f: Body, maxOffset: nat, o: nat) {
    o < |f.data| && o <= maxOffset && !Masked(f.relocs, o)
  }

  ghost predicate Increasing(s: seq<nat>) {
    forall i, j :: 0 <= i < j < |s| ==> s[i] < s[j]
  }

  /** All usable offsets in order. */
  ghost predicate AllUsable(f: Body, maxOffset: nat, usable: seq<nat>) {
    Increasing(usable) && forall o: nat :: o in usable <==> Usable(f, maxOffset, o)
  }

  method BannedOffsets(relocs: seq<nat>) returns (banned: set<nat>)
    ensures forall o: nat :: o in banned <==> Masked(relocs, o)
  {
    banned := {};
    for k := 0 to |relocs|
      invariant forall o: nat :: o in banned <==> exists i :: 0 <= i < k && relocs[i] <= o < relocs[i] + 4
    {
      var r := relocs[k];
      banned := banned + {r, r + 1, r + 2, r + 3};
    }
  }

  /** The usable offsets below `n` in order. */
  ghost function UsableBelow(f: Body, maxOffset: nat, n: nat): seq<nat> {
    if n == 0 then [] else UsableBelow(f, maxOffset, n - 1) + if Usable(f, maxOffset, n - 1) then [n - 1] else []
  }

  ghost function AllOffsets(f: Body, maxOffset: nat): seq<nat> { UsableBelow(f, maxOffset, |f.data|) }

  lemma {:induction false} UsableBelowExact(f: Body, maxOffset: nat, n: nat)
    ensures Increasing(UsableBelow(f, maxOffset, n))
    ensures forall o: nat :: o in UsableBelow(f, maxOffset, n) <==> o < n && Usable(f, maxOffset, o)
  {
    hide Usable;
    if n > 0 {
      UsableBelowExact(f, maxOffset, n - 1);
      var before := UsableBelow(f, maxOffset, n - 1);
      assert forall j :: 0 <= j < |before| ==> before[j] in before;
    }
  }

  /** `AllOffsets` lists exactly the usable offsets, in order. */
  lemma AllOffsetsUsable(f: Body, maxOffset: nat)
    ensures AllUsable(f, maxOffset, AllOffsets(f, maxOffset))
  {
    hide Masked;
    UsableBelowExact(f, maxOffset, |f.data|);
  }

  lemma {:induction false} UsableStops(f: Body, maxOffset: nat, from: nat, to: nat)
    requires from <= to && maxOffset < from
    ensures UsableBelow(f, maxOffset, to) == UsableBelow(f, maxOffset, from)
  {
    hide Masked;
    if from < to {
      UsableStops(f, maxOffset, from, to - 1);
    }
  }

  method UsableOffsets(f: Body, maxOffset: nat) returns (usable: seq<nat>)
    ensures usable == AllOffsets(f, maxOffset)
  {
    hide Masked;
    var banned := BannedOffsets(f.relocs);
    var end := if |f.data| < maxOffset + 1 then |f.data| else maxOffset + 1;
    usable := [];
    for o := 0 to end
      invariant usable == UsableBelow(f, maxOffset, o)
    {
      if o !in banned {
        usable := usable + [o];
      }
    }
    if end < |f.data| {
      UsableStops(f, maxOffset, end, |f.data|);
    }
  }

  function Distance(a: nat, b: nat): nat {
    if a < b then b - a else a - b
  }

  /** The least of the offsets nearest to a target. */
  ghost predicate IsNearest(usable: seq<nat>, target: nat, o: nat) {
    && o in usable
    && forall p :: p in usable ==>
      Distance(o, target) < Distance(p, target) || (Distance(o, target) == Distance(p, target) && o <= p)
  }

  method Nearest(usable: seq<nat>, target: nat) returns (best: nat)
    requires usable != [] && Increasing(usable)
    ensures IsNearest(usable, target, best)
  {
    hide Distance;
    best := usable[0];
    for i := 1 to |usable|
      invariant best in usable[..i] && IsNearest(usable[..i], target, best)
    {
      assert forall p :: p in usable[..i + 1] ==> p in usable[..i] || p == usable[i];
      assert forall p :: p in usable[..i] ==> p < usable[i];
      if Distance(usable[i], target) < Distance(best, target) {
        best := usable[i];
      }
    }
    assert usable[..|usable|] == usable;
  }

  ghost predicate Distinct(s: seq<nat>) {
    forall i, j :: 0 <= i < j < |s| ==> s[i] != s[j]
  }

  /** `s` holds distinct members of `usable`. */
  ghost predicate Chosen(s: seq<nat>, usable: seq<nat>) {
    Distinct(s) && forall o :: o in s ==> o in usable
  }

  lemma ChosenMore(s: seq<nat>, usable: seq<nat>, o: nat)
    requires Chosen(s, usable) && o in usable && o !in s
    ensures Chosen(s + [o], usable)
  {
  }

  /** There are at most as many distinct members as there are members. */
  lemma {:induction false} ChosenFew(s: seq<nat>, usable: seq<nat>)
    requires Chosen(s, usable)
    ensures |s| <= |usable|
  {
    if s == [] {
    } else {
      var last := s[|s| - 1];
      assert last in s && last in usable;
      var i :| 0 <= i < |usable| && usable[i] == last;
      var init := s[..|s| - 1];
      forall o | o in init
        ensures o in usable[..i] + usable[i + 1..]
      {
        var j :| 0 <= j < |init| && init[j] == o;
        assert s[j] == o && s[|s| - 1] == last && o != last;
        assert o in s && o in usable;
        var k :| 0 <= k < |usable| && usable[k] == o;
        assert o == if k < i then usable[..i][k] else usable[i + 1..][k - i - 1];
      }
      assert Chosen(init, usable[..i] + usable[i + 1..]) by {
        assert forall a, b :: 0 <= a < b < |init| ==> init[a] == s[a] && init[b] == s[b];
      }
      ChosenFew(init, usable[..i] + usable[i + 1..]);
    }
  }

  /** When everything usable has been chosen, as many have been chosen as there are. */
  lemma ChosenAll(s: seq<nat>, usable: seq<nat>)
    requires Chosen(s, usable) && Increasing(usable) && forall o :: o in usable ==> o in s
    ensures |s| == |usable|
  {
    ChosenFew(s, usable);
    ChosenFew(usable, s);
  }

  /** The `k`-th of evenly spread offsets. */
  function Target(k: nat, limit: nat, want: nat): nat
    requires want > 1
  {
    k * limit / (want - 1)
  }

  /** The anchor of the scan, or the offset nearest to one of the targets 1 to `n - 1`. */
  ghost predicate Snapped(usable: seq<nat>, limit: nat, want: nat, n: nat, o: nat)
    requires usable != [] && n <= want
  {
    o == usable[0] || exists k :: 1 <= k < n && IsNearest(usable, Target(k, limit, want), o)
  }

  lemma SnappedNext(usable: seq<nat>, limit: nat, want: nat, n: nat, best: nat)
    requires usable != [] && 0 < n < want && IsNearest(usable, Target(n, limit, want), best)
    ensures forall o :: Snapped(usable, limit, want, n + 1, o) <==> Snapped(usable, limit, want, n, o) || o == best
  {
    hide Distance, Target;
    forall o: nat
      ensures Snapped(usable, limit, want, n + 1, o) <==> Snapped(usable, limit, want, n, o) || o == best
    {
      if Snapped(usable, limit, want, n, o) && o != usable[0] {
        var k :| 1 <= k < n && IsNearest(usable, Target(k, limit, want), o);
        assert 1 <= k < n + 1;
      }
      if Snapped(usable, limit, want, n + 1, o) && o != usable[0] {
        var k :| 1 <= k < n + 1 && IsNearest(usable, Target(k, limit, want), o);
      }
    }
  }

  /** The ideal, evenly spread targets snapped to usable offsets; the first usable offset is kept
      as the anchor of the scan. */
  method Snap(usable: seq<nat>, want: nat, limit: nat) returns (picked: seq<nat>)
    requires usable != [] && 0 < want && Increasing(usable) && usable[|usable| - 1] <= limit
    ensures Chosen(picked, usable) && 0 < |picked| <= want && picked[0] == usable[0]
    ensures want > 1 ==> usable[|usable| - 1] in picked
    ensures forall o :: o in picked <==> Snapped(usable, limit, want, want, o)
  {
    hide Distance, Target, IsNearest, Increasing, Snapped, Chosen;
    picked := [usable[0]];
    FirstSnapped(usable, limit, want);
    for k := 1 to want
      invariant Chosen(picked, usable) && 0 < |picked| <= k && picked[0] == usable[0]
      invariant k > 1 && k == want ==> usable[|usable| - 1] in picked
      invariant forall o :: o in picked <==> Snapped(usable, limit, want, k, o)
    {
      var target := Target(k, limit, want);
      var best := Nearest(usable, target);
      SnappedNext(usable, limit, want, k, best);
      assert best in usable by { NearestUsable(usable, target, best); }
      if k == want - 1 {
        LastTarget(want, limit);
        LastIsNearest(usable, limit, best);
      }
      if best !in picked {
        ChosenMore(picked, usable, best);
        picked := picked + [best];
      }
    }
  }

  lemma FirstSnapped(usable: seq<nat>, limit: nat, want: nat)
    requires usable != [] && 0 < want
    ensures Chosen([usable[0]], usable)
    ensures forall o :: o in [usable[0]] <==> Snapped(usable, limit, want, 1, o)
  {
  }

  lemma NearestUsable(usable: seq<nat>, target: nat, o: nat)
    requires IsNearest(usable, target, o)
    ensures o in usable
  {
  }

  lemma LastTarget(want: nat, limit: nat)
    requires want > 1
    ensures Target(want - 1, limit, want) == limit
  {
    DivideBack(want - 1, limit);
  }

  lemma DivideBack(k: nat, n: nat)
    requires k > 0
    ensures k * n / k == n
  {
    var q, r := k * n / k, k * n % k;
    assert k * n == k * q + r;
    assert k * (n - q) == r;
    NoMultiple(k, n - q, r);
  }

  /** No multiple of `k` but zero is a remainder. */
  lemma NoMultiple(k: nat, d: int, r: nat)
    requires r < k && k * d == r
    ensures d == 0
  {
    MultipleGrows(k, d);
  }

  lemma MultipleGrows(k: int, d: int)
    requires k > 0
    ensures d >= 1 ==> k * d >= k
    ensures d <= -1 ==> k * d <= -k
  {
  }

  lemma LastIsNearest(usable: seq<nat>, limit: nat, best: nat)
    requires usable != [] && Increasing(usable) && usable[|usable| - 1] <= limit
    requires IsNearest(usable, limit, best)
    ensures best == usable[|usable| - 1]
  {
    var i :| 0 <= i < |usable| && usable[i] == best;
    AtMostLast(usable, i);
    assert usable[|usable| - 1] in usable;
  }

  lemma AtMostLast(s: seq<nat>, i: nat)
    requires Increasing(s) && i < |s|
    ensures s[i] <= s[|s| - 1]
  {
  }

  /** Fill up with the lowest usable offsets when snapping collided. */
  method TopUp(usable: seq<nat>, want: nat, picked: seq<nat>) returns (all: seq<nat>)
    requires Chosen(picked, usable) && |picked| <= want <= |usable| && Increasing(usable)
    ensures Chosen(all, usable) && |all| == want && picked <= all
    ensures forall o, p :: o in all && o !in picked && p in usable && p !in all ==> o < p
  {
    all := picked;
    var i := 0;
    while i < |usable| && |all| < want
      invariant i <= |usable| && Chosen(all, usable) && |all| <= want && picked <= all
      invariant forall j :: 0 <= j < i ==> usable[j] in all
      invariant forall o :: o in all && o !in picked ==> o in usable[..i]
    {
      assert usable[..i + 1] == usable[..i] + [usable[i]];
      if usable[i] !in all {
        ChosenMore(all, usable, usable[i]);
        all := all + [usable[i]];
      }
      i := i + 1;
    }
    if |all| < want {
      ChosenAll(all, usable);
    }
    LowestFirst(usable, i, all, picked);
  }

  lemma LowestFirst(usable: seq<nat>, i: nat, all: seq<nat>, picked: seq<nat>)
    requires i <= |usable| && Increasing(usable)
    requires forall j :: 0 <= j < i ==> usable[j] in all
    requires forall o :: o in all && o !in picked ==> o in usable[..i]
    ensures forall o, p :: o in all && o !in picked && p in usable && p !in all ==> o < p
  {
    forall o, p | o in all && o !in picked && p in usable && p !in all
      ensures o < p
    {
      var j :| 0 <= j < i && usable[j] == o;
      var k :| 0 <= k < |usable| && usable[k] == p;
    }
  }

  function Insert(s: seq<nat>, x: nat): seq<nat> {
    if s == [] || x < s[0] then [x] + s else [s[0]] + Insert(s[1..], x)
  }

  lemma {:induction false} InsertKeeps(s: seq<nat>, x: nat)
    requires Increasing(s) && x !in s
    ensures Increasing(Insert(s, x)) && |Insert(s, x)| == |s| + 1
    ensures forall o :: o in Insert(s, x) <==> o == x || o in s
  {
    if s == [] || x < s[0] {
      assert forall o :: o in [x] + s <==> o == x || o in s;
    } else {
      InsertKeeps(s[1..], x);
      var rest := Insert(s[1..], x);
      assert s == [s[0]] + s[1..];
      forall i | 0 <= i < |rest|
        ensures s[0] < rest[i]
      {
        assert rest[i] in rest;
      }
    }
  }

  method Sort(s: seq<nat>) returns (sorted: seq<nat>)
    requires Distinct(s)
    ensures Increasing(sorted) && |sorted| == |s| && forall o :: o in sorted <==> o in s
  {
    sorted := [];
    for i := 0 to |s|
      invariant Increasing(sorted) && |sorted| == i && forall o :: o in sorted <==> o in s[..i]
    {
      assert s[i] !in s[..i];
      InsertKeeps(sorted, s[i]);
      sorted := Insert(sorted, s[i]);
      assert forall o :: o in s[..i + 1] <==> o in s[..i] || o == s[i];
    }
    assert s[..|s|] == s;
  }

  /** A signature taken from a body: bytes of the body at increasing unrelocated offsets. */
  ghost predicate TakenFrom(pairs: seq<Pair>, f: Body, maxOffset: nat) {
    && (forall i, j :: 0 <= i < j < |pairs| ==> pairs[i].0 < pairs[j].0)
    && forall i :: 0 <= i < |pairs| ==> Usable(f, maxOffset, pairs[i].0) && pairs[i].1 == f.data[pairs[i].0]
  }

  ghost predicate HasOffset(pairs: seq<Pair>, o: nat) {
    exists i :: 0 <= i < |pairs| && pairs[i].0 == o
  }

  /** The pairs are at the snapped offsets and, besides these, at the lowest usable ones. */
  ghost predicate Picks(usable: seq<nat>, limit: nat, pairs: seq<Pair>)
    requires usable != []
  {
    && (forall o :: Snapped(usable, limit, |pairs|, |pairs|, o) ==> HasOffset(pairs, o))
    && forall o, p ::
      (HasOffset(pairs, o) && !Snapped(usable, limit, |pairs|, |pairs|, o) && p in usable && !HasOffset(pairs, p))
      ==> o < p
  }

  /** The greatest offset the search looks at. */
  function LastOffset(f: Body, maxOffset: nat): nat
    requires f.data != []
  {
    if |f.data| - 1 < maxOffset then |f.data| - 1 else maxOffset
  }

  /** Exactly the wanted number of pairs, or as many as can be when fewer are allowed; nothing when
      there are too few. The first pair is the least usable offset and, of two or more, the last
      the greatest; in between the pairs are spread as evenly as the usable offsets allow. */
  method PickPairs(f: Body, want: nat, maxOffset: nat, allowFewer: bool)
    returns (r: Option<seq<Pair>>)
    ensures var usable := AllOffsets(f, maxOffset); r == None <==> usable == [] || (|usable| < want && !allowFewer)
    ensures r.Some? ==>
      var usable := AllOffsets(f, maxOffset);
      && TakenFrom(r.value, f, maxOffset) && |r.value| == (if |usable| < want then |usable| else want)
      && (r.value != [] ==> r.value[0].0 == usable[0])
      && (|r.value| > 1 ==> r.value[|r.value| - 1].0 == usable[|usable| - 1])
      && f.data != [] && (r.value != [] ==> Picks(usable, LastOffset(f, maxOffset), r.value))
  {
    hide Masked, Chosen, TakenFrom, AllOffsets, Picks, Snapped;
    var offsets := UsableOffsets(f, maxOffset);
    AllOffsetsUsable(f, maxOffset);
    var count := want;
    if |offsets| < want {
      if allowFewer && offsets != [] {
        count := |offsets|;
      } else {
        return None;
      }
    }
    if offsets == [] {
      return None;
    }
    assert f.data != [] by { assert Usable(f, maxOffset, offsets[0]) by { assert offsets[0] in offsets; } }
    if count == 0 {
      PairsTaken(f, maxOffset, [], offsets);
      assert PairsAt(f, []) == [];
      return Some([]);
    }
    var limit := LastOffset(f, maxOffset);
    assert offsets[|offsets| - 1] in offsets;
    var picked := Snap(offsets, count, limit);
    var all := TopUp(offsets, count, picked);
    var sorted := Sort(all);
    Ends(sorted, all, offsets);
    PairsTaken(f, maxOffset, sorted, offsets);
    PairsPicked(f, sorted, picked, all, offsets, limit);
    return Some(PairsAt(f, sorted));
  }

  function PairsAt(f: Body, offsets: seq<nat>): seq<Pair>
    requires forall i :: 0 <= i < |offsets| ==> offsets[i] < |f.data|
  {
    seq(|offsets|, i requires 0 <= i < |offsets| => (offsets[i], f.data[offsets[i]]))
  }

  lemma PairsPicked(f: Body, sorted: seq<nat>, picked: seq<nat>, all: seq<nat>, usable: seq<nat>, limit: nat)
    requires usable != [] && picked <= all && forall i :: 0 <= i < |sorted| ==> sorted[i] < |f.data|
    requires forall o :: o in sorted <==> o in all
    requires forall o :: o in picked <==> Snapped(usable, limit, |sorted|, |sorted|, o)
    requires forall o, p :: o in all && o !in picked && p in usable && p !in all ==> o < p
    ensures Picks(usable, limit, PairsAt(f, sorted))
  {
    hide Snapped;
    var pairs := PairsAt(f, sorted);
    forall o: nat
      ensures HasOffset(pairs, o) <==> o in all
    {
      if o in all {
        var i :| 0 <= i < |sorted| && sorted[i] == o;
        assert pairs[i].0 == o;
      }
      if HasOffset(pairs, o) {
        var i :| 0 <= i < |pairs| && pairs[i].0 == o;
        assert sorted[i] == o;
      }
    }
  }

  lemma PairsTaken(f: Body, maxOffset: nat, offsets: seq<nat>, usable: seq<nat>)
    requires AllUsable(f, maxOffset, usable) && Increasing(offsets)
    requires forall i :: 0 <= i < |offsets| ==> offsets[i] in usable
    ensures forall i :: 0 <= i < |offsets| ==> offsets[i] < |f.data|
    ensures TakenFrom(PairsAt(f, offsets), f, maxOffset)
  {
    hide Masked;
  }

  lemma Ends(sorted: seq<nat>, all: seq<nat>, usable: seq<nat>)
    requires Increasing(sorted) && Increasing(usable) && Chosen(all, usable) && all != [] && usable != []
    requires |sorted| == |all| && forall o :: o in sorted <==> o in all
    ensures forall i :: 0 <= i < |sorted| ==> sorted[i] in usable
    ensures usable[0] in all ==> sorted[0] == usable[0]
    ensures usable[|usable| - 1] in all ==> sorted[|sorted| - 1] == usable[|usable| - 1]
  {
    assert forall i :: 0 <= i < |sorted| ==> sorted[i] in all;
  }

  // ---- Scanning ----

  /** Every pair holds at `base`. */
  predicate MatchesAt(img: seq<byte>, base: nat, pairs: seq<Pair>) {
    forall k :: 0 <= k < |pairs| ==> base + pairs[k].0 < |img| && img[base + pairs[k].0] == pairs[k].1
  }

  /** The bases below `n` at which every pair holds, in order: a scan that tries every base. */
  function Matches(img: seq<byte>, pairs: seq<Pair>, n: nat): seq<nat> {
    if n == 0 then []
    else Matches(img, pairs, n - 1) + if MatchesAt(img, n - 1, pairs) then [n - 1] else []
  }

  /** A scan stops after its match reaches the limit, so a limit below one still finds one. */
  function Limit(limit: int): nat {
    if limit < 1 then 1 else limit
  }

  /** No pair lies behind the last one. */
  ghost predicate LastIsFarthest(pairs: seq<Pair>): (r: bool)
    ensures r ==> pairs != []
  {
    pairs != [] && forall k :: 0 <= k < |pairs| ==> pairs[k].0 <= pairs[|pairs| - 1].0
  }

  /** The number of bases at which the last pair is inside the image. */
  function End(img: seq<byte>, pairs: seq<Pair>): nat
    requires pairs != []
  {
    var last := pairs[|pairs| - 1].0;
    if |img| < last then 0 else |img| - last
  }

  method FindByte(img: seq<byte>, value: byte, start: nat) returns (r: Option<nat>)
    ensures r.Some? ==> start <= r.value < |img| && img[r.value] == value
    ensures forall i :: start <= i < (if r.Some? then r.value else |img|) ==> img[i] != value
  {
    var i := start;
    while i < |img|
      invariant start <= i && forall j :: start <= j < i && j < |img| ==> img[j] != value
    {
      if img[i] == value {
        return Some(i);
      }
      i := i + 1;
    }
    return None;
  }

  /** Bases without a match add nothing. */
  lemma {:induction false} MatchesSkip(img: seq<byte>, pairs: seq<Pair>, from: nat, to: nat)
    requires from <= to && forall b :: from <= b < to ==> !MatchesAt(img, b, pairs)
    ensures Matches(img, pairs, to) == Matches(img, pairs, from)
  {
    hide MatchesAt;
    if from < to {
      MatchesSkip(img, pairs, from, to - 1);
    }
  }

  /** Bases whose anchor byte differs do not match. */
  lemma AnchorSkips(img: seq<byte>, pairs: seq<Pair>, from: nat, to: nat)
    requires pairs != [] && from <= to
    requires forall i :: from + pairs[0].0 <= i < to + pairs[0].0 && i < |img| ==> img[i] != pairs[0].1
    ensures Matches(img, pairs, to) == Matches(img, pairs, from)
  {
    forall b | from <= b < to
      ensures !MatchesAt(img, b, pairs)
    {
      assert b + pairs[0].0 < |img| ==> img[b + pairs[0].0] != pairs[0].1;
    }
    MatchesSkip(img, pairs, from, to);
  }

  /** Whether every pair holds at a base inside the scan. */
  method AllHold(img: seq<byte>, base: nat, pairs: seq<Pair>) returns (r: bool)
    requires LastIsFarthest(pairs) && base < End(img, pairs)
    ensures r == MatchesAt(img, base, pairs)
  {
    for k := 0 to |pairs|
      invariant forall j :: 0 <= j < k ==> img[base + pairs[j].0] == pairs[j].1
    {
      if img[base + pairs[k].0] != pairs[k].1 {
        return false;
      }
    }
    return true;
  }

  /** Where an anchored scan that has come to `pos` stands. */
  function Reached(img: seq<byte>, pairs: seq<Pair>, pos: Option<nat>): nat
    requires pairs != []
  {
    var end := End(img, pairs);
    if pos.Some? && pairs[0].0 <= pos.value < end + pairs[0].0 then pos.value - pairs[0].0 else end
  }

  lemma AnchorReached(img: seq<byte>, pairs: seq<Pair>, start: nat, pos: Option<nat>)
    requires LastIsFarthest(pairs) && pairs[0].0 <= start
    requires pos.Some? ==> start <= pos.value < |img|
    requires forall i :: start <= i < (if pos.Some? then pos.value else |img|) ==> img[i] != pairs[0].1
    ensures var from := if start - pairs[0].0 < End(img, pairs) then start - pairs[0].0 else End(img, pairs);
      Matches(img, pairs, Reached(img, pairs, pos)) == Matches(img, pairs, from)
  {
    hide Matches, MatchesAt;
    var end := End(img, pairs);
    var from := if start - pairs[0].0 < end then start - pairs[0].0 else end;
    AnchorSkips(img, pairs, from, Reached(img, pairs, pos));
  }

  method CountMatches(img: seq<byte>, pairs: seq<Pair>) returns (n: nat)
    requires LastIsFarthest(pairs)
    ensures n == |Matches(img, pairs, End(img, pairs))|
  {
    hide Matches, MatchesAt, End, LastIsFarthest;
    n := 0;
    var end := End(img, pairs);
    var (offset, value) := pairs[0];
    var pos := FindByte(img, value, offset);
    ScanStarts(img, pairs, offset, pos);
    while pos.Some? && pos.value < end + offset
      invariant pos.Some? ==> offset <= pos.value < |img|
      invariant n == |Matches(img, pairs, Reached(img, pairs, pos))|
      decreases if pos.Some? then |img| - pos.value else 0
    {
      var base := pos.value - offset;
      var holds := AllHold(img, base, pairs);
      if holds {
        n := n + 1;
      }
      var next := FindByte(img, value, pos.value + 1);
      ScanMoves(img, pairs, pos.value, next);
      pos := next;
    }
  }

  lemma ScanStarts(img: seq<byte>, pairs: seq<Pair>, offset: nat, pos: Option<nat>)
    requires LastIsFarthest(pairs) && offset == pairs[0].0
    requires pos.Some? ==> offset <= pos.value < |img|
    requires forall i :: offset <= i < (if pos.Some? then pos.value else |img|) ==> img[i] != pairs[0].1
    ensures Matches(img, pairs, Reached(img, pairs, pos)) == []
  {
    hide MatchesAt, Reached;
    AnchorReached(img, pairs, offset, pos);
  }

  lemma ScanMoves(img: seq<byte>, pairs: seq<Pair>, pos: nat, next: Option<nat>)
    requires LastIsFarthest(pairs) && pairs[0].0 <= pos < End(img, pairs) + pairs[0].0
    requires next.Some? ==> pos + 1 <= next.value < |img|
    requires forall i :: pos + 1 <= i < (if next.Some? then next.value else |img|) ==> img[i] != pairs[0].1
    ensures Matches(img, pairs, Reached(img, pairs, next)) == Matches(img, pairs, Reached(img, pairs, Some(pos)))
      + if MatchesAt(img, pos - pairs[0].0, pairs) then [pos - pairs[0].0] else []
  {
    hide MatchesAt, Matches, LastIsFarthest, End;
    var base := pos - pairs[0].0;
    AnchorReached(img, pairs, pos + 1, next);
    MatchesNext(img, pairs, base);
  }

  lemma MatchesNext(img: seq<byte>, pairs: seq<Pair>, base: nat)
    ensures Matches(img, pairs, base + 1) ==
      Matches(img, pairs, base) + if MatchesAt(img, base, pairs) then [base] else []
  {
    hide MatchesAt;
  }

  lemma {:induction false} FirstStable(img: seq<byte>, pairs: seq<Pair>, n: nat, m: nat, k: nat)
    requires n <= m && k <= |Matches(img, pairs, n)|
    ensures First(Matches(img, pairs, m), k) == First(Matches(img, pairs, n), k)
  {
    hide MatchesAt;
    if n < m {
      FirstStable(img, pairs, n, m - 1, k);
      MatchesGrow(img, pairs, n, m - 1);
    }
  }

  lemma {:induction false} MatchesGrow(img: seq<byte>, pairs: seq<Pair>, n: nat, m: nat)
    requires n <= m
    ensures |Matches(img, pairs, n)| <= |Matches(img, pairs, m)|
  {
    hide MatchesAt;
    if n < m {
      MatchesGrow(img, pairs, n, m - 1);
    }
  }

  /** The scan that tries every base. */
  method FindMatches(img: seq<byte>, pairs: seq<Pair>, limit: int) returns (out: seq<nat>)
    requires LastIsFarthest(pairs)
    ensures out == First(Matches(img, pairs, End(img, pairs)), Limit(limit))
  {
    hide MatchesAt, End, LastIsFarthest;
    out := [];
    var end := End(img, pairs);
    for base := 0 to end
      invariant out == Matches(img, pairs, base) && |out| < Limit(limit)
    {
      var holds := AllHold(img, base, pairs);
      if holds {
        out := out + [base];
        if |out| >= limit {
          FirstStable(img, pairs, base + 1, end, Limit(limit));
          return;
        }
      }
    }
  }

  /** The scan anchored on the first pair's byte. */
  method FindMatchesAnchored(img: seq<byte>, pairs: seq<Pair>, limit: int) returns (out: seq<nat>)
    requires LastIsFarthest(pairs)
    ensures out == First(Matches(img, pairs, End(img, pairs)), Limit(limit))
  {
    hide Matches, MatchesAt, End, LastIsFarthest;
    var (offset, value) := pairs[0];
    out := [];
    var pos := FindByte(img, value, offset);
    var end := End(img, pairs);
    ScanStarts(img, pairs, offset, pos);
    while pos.Some?
      invariant pos.Some? ==> offset <= pos.value < |img|
      invariant out == Matches(img, pairs, Reached(img, pairs, pos)) && |out| < Limit(limit)
      decreases if pos.Some? then |img| - pos.value else 0
    {
      var base := pos.value - offset;
      if base >= end {
        break;
      }
      var holds := AllHold(img, base, pairs);
      var next := FindByte(img, value, pos.value + 1);
      ScanMoves(img, pairs, pos.value, next);
      if holds {
        out := out + [base];
        if |out| >= limit {
          FirstStable(img, pairs, Reached(img, pairs, next), end, Limit(limit));
          return;
        }
      }
      pos := next;
    }
  }

  /** A signature taken from a body matches wherever the body lies, whatever its relocated dwords
      hold, and both scans find it there. */
  lemma SignatureFindsBody(f: Body, pairs: seq<Pair>, maxOffset: nat, img: seq<byte>, base: nat)
    requires pairs != [] && TakenFrom(pairs, f, maxOffset) && Placed(img, base, f)
    ensures LastIsFarthest(pairs) && MatchesAt(img, base, pairs) && base in Matches(img, pairs, End(img, pairs))
  {
    hide Masked;
    forall k | 0 <= k < |pairs|
      ensures base + pairs[k].0 < |img| && img[base + pairs[k].0] == pairs[k].1
    {
      assert Usable(f, maxOffset, pairs[k].0);
    }
    Found(img, pairs, base, End(img, pairs));
  }

  /** Every matching base is found. */
  lemma {:induction false} Found(img: seq<byte>, pairs: seq<Pair>, base: nat, n: nat)
    ensures base in Matches(img, pairs, n) <==> base < n && MatchesAt(img, base, pairs)
  {
    hide MatchesAt;
    if n > 0 {
      Found(img, pairs, base, n - 1);
    }
  }
}
