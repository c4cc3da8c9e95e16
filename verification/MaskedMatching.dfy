/** Matching whole bodies around their relocations (tools/oovpa/xdklib.py: unmasked_runs,
    exact_matches, _score). */
module MaskedMatching {
  import opened Bytes
  import opened Numbers
  import opened Wrappers
  import opened Signatures

  /** Offsets from `0` up to but not including `1`. */
  type Run = (nat, nat)

  // ---- Runs ----

  /** A maximal run of unrelocated offsets. */
  ghost predicate MaximalRun(f: Body, r: Run): (b: bool)
    ensures b ==> r.0 < r.1 <= |f.data|
  {
    && r.0 < r.1 <= |f.data|
    && (forall o :: r.0 <= o < r.1 ==> !Masked(f.relocs, o))
    && (r.0 == 0 || Masked(f.relocs, r.0 - 1)) && (r.1 == |f.data| || Masked(f.relocs, r.1))
  }

  ghost predicate InRun(r: Run, o: nat) { r.0 <= o < r.1 }

  ghost predicate InSome(runs: seq<Run>, o: nat) {
    exists i :: 0 <= i < |runs| && InRun(runs[i], o)
  }

  /** Maximal runs in order, holding every unrelocated offset below `n`. */
  ghost predicate RunsUpTo(f: Body, runs: seq<Run>, n: nat) {
    && (forall i :: 0 <= i < |runs| ==> MaximalRun(f, runs[i]))
    && (forall i, j :: 0 <= i < j < |runs| ==> runs[i].1 < runs[j].0)
    && (forall o: nat :: o < n && o < |f.data| && !Masked(f.relocs, o) ==> InSome(runs, o))
  }

  /** All maximal runs in order. */
  ghost predicate RunsOf(f: Body, runs: seq<Run>) {
    RunsUpTo(f, runs, |f.data|)
  }

  /** A run is open from `s` on. */
  ghost predicate OpenRun(f: Body, runs: seq<Run>, s: nat, i: nat) {
    && RunsUpTo(f, runs, s) && s < i <= |f.data| && (s == 0 || Masked(f.relocs, s - 1))
    && (forall o :: s <= o < i ==> !Masked(f.relocs, o))
    && (forall k :: 0 <= k < |runs| ==> runs[k].1 < s)
  }

  /** No run is open before `i`. */
  ghost predicate NoRun(f: Body, runs: seq<Run>, i: nat) {
    && RunsUpTo(f, runs, i) && (i == 0 || i > |f.data| || Masked(f.relocs, i - 1))
    && (forall k :: 0 <= k < |runs| ==> runs[k].1 < i)
  }

  lemma Skip(f: Body, runs: seq<Run>, i: nat)
    requires NoRun(f, runs, i) && (i >= |f.data| || Masked(f.relocs, i))
    ensures NoRun(f, runs, i + 1)
  {
    hide Masked, InSome, MaximalRun;
  }

  lemma Close(f: Body, runs: seq<Run>, s: nat, i: nat)
    requires OpenRun(f, runs, s, i) && (i == |f.data| || Masked(f.relocs, i))
    ensures NoRun(f, runs + [(s, i)], i + 1)
  {
    hide Masked;
    var more := runs + [(s, i)];
    forall o: nat | o < i + 1 && o < |f.data| && !Masked(f.relocs, o)
      ensures InSome(more, o)
    {
      if o < s {
        assert InSome(runs, o);
        var k :| 0 <= k < |runs| && InRun(runs[k], o);
        assert InRun(more[k], o);
      } else {
        assert InRun(more[|runs|], o);
      }
    }
  }

  method UnmaskedRuns(f: Body) returns (runs: seq<Run>)
    ensures RunsOf(f, runs)
  {
    hide Masked, RunsUpTo;
    var banned := BannedOffsets(f.relocs);
    runs := [];
    var start: Option<nat> := None;
    NothingUpTo(f);
    for i := 0 to |f.data| + 1
      invariant if start == None then NoRun(f, runs, i) else OpenRun(f, runs, start.value, i)
    {
      if i < |f.data| && i !in banned {
        if start == None {
          start := Some(i);
        }
      } else if start != None {
        Close(f, runs, start.value, i);
        runs := runs + [(start.value, i)];
        start := None;
      } else {
        Skip(f, runs, i);
      }
    }
    Complete(f, runs);
  }

  lemma NothingUpTo(f: Body)
    ensures RunsUpTo(f, [], 0)
  {
  }

  lemma Complete(f: Body, runs: seq<Run>)
    requires RunsUpTo(f, runs, |f.data| + 1)
    ensures RunsOf(f, runs)
  {
  }

  // ---- Exact matches ----

  /** The bases below `n` at which the body lies, in order. */
  ghost function Placements(img: seq<byte>, f: Body, n: nat): seq<nat> {
    if n == 0 then []
    else Placements(img, f, n - 1) + if Placed(img, n - 1, f) then [n - 1] else []
  }

  /** The slice of the image agrees with the body on a run. */
  predicate Agrees(img: seq<byte>, base: nat, f: Body, r: Run) {
    r.0 <= r.1 <= |f.data| && base + r.1 <= |img| && img[base + r.0..base + r.1] == f.data[r.0..r.1]
  }

  lemma AgreesPointwise(img: seq<byte>, base: nat, f: Body, r: Run)
    requires r.0 <= r.1 <= |f.data| && base + r.1 <= |img|
    ensures Agrees(img, base, f, r) <==> forall o :: r.0 <= o < r.1 ==> img[base + o] == f.data[o]
  {
    var a, b := img[base + r.0..base + r.1], f.data[r.0..r.1];
    if Agrees(img, base, f, r) {
      forall o | r.0 <= o < r.1
        ensures img[base + o] == f.data[o]
      {
        assert a[o - r.0] == b[o - r.0];
      }
    }
    if forall o :: r.0 <= o < r.1 ==> img[base + o] == f.data[o] {
      assert a == b;
    }
  }

  lemma PlacedByRuns(img: seq<byte>, base: nat, f: Body, runs: seq<Run>)
    requires RunsOf(f, runs) && base + |f.data| <= |img|
    ensures Placed(img, base, f) <==> forall i :: 0 <= i < |runs| ==> Agrees(img, base, f, runs[i])
  {
    hide Masked, Agrees;
    forall i | 0 <= i < |runs|
      ensures Agrees(img, base, f, runs[i]) <==> forall o :: runs[i].0 <= o < runs[i].1 ==> img[base + o] == f.data[o]
    {
      AgreesPointwise(img, base, f, runs[i]);
    }
    if forall i :: 0 <= i < |runs| ==> Agrees(img, base, f, runs[i]) {
      forall o: nat | o < |f.data| && !Masked(f.relocs, o)
        ensures img[base + o] == f.data[o]
      {
        assert InSome(runs, o);
        var i :| 0 <= i < |runs| && InRun(runs[i], o);
        assert Agrees(img, base, f, runs[i]);
      }
    }
  }

  /** The first of the longest runs. */
  method LongestRun(runs: seq<Run>) returns (r: Run)
    requires runs != [] && forall i :: 0 <= i < |runs| ==> runs[i].0 <= runs[i].1
    ensures r in runs && forall i :: 0 <= i < |runs| ==> runs[i].1 - runs[i].0 <= r.1 - r.0
  {
    r := runs[0];
    for i := 1 to |runs|
      invariant r in runs && forall j :: 0 <= j < i ==> runs[j].1 - runs[j].0 <= r.1 - r.0
    {
      if runs[i].1 - runs[i].0 > r.1 - r.0 {
        r := runs[i];
      }
    }
  }

  ghost predicate OccursAt(img: seq<byte>, needle: seq<byte>, pos: nat) {
    pos + |needle| <= |img| && img[pos..pos + |needle|] == needle
  }

  method FindSlice(img: seq<byte>, needle: seq<byte>, start: nat) returns (r: Option<nat>)
    ensures r.Some? ==> start <= r.value && OccursAt(img, needle, r.value)
    ensures forall i :: start <= i < (if r.Some? then r.value else |img| + 1) ==> !OccursAt(img, needle, i)
  {
    var i := start;
    while i + |needle| <= |img|
      invariant start <= i && forall j :: start <= j < i ==> !OccursAt(img, needle, j)
    {
      if img[i..i + |needle|] == needle {
        return Some(i);
      }
      i := i + 1;
    }
    return None;
  }

  /** The anchor of a placed body occurs where it should. */
  lemma AnchorOccurs(img: seq<byte>, base: nat, f: Body, r: Run)
    requires MaximalRun(f, r) && Placed(img, base, f)
    ensures OccursAt(img, f.data[r.0..r.1], base + r.0)
  {
    hide Masked;
    AgreesPointwise(img, base, f, r);
  }

  lemma {:induction false} PlacementsSkip(img: seq<byte>, f: Body, from: nat, to: nat)
    requires from <= to && forall b :: from <= b < to ==> !Placed(img, b, f)
    ensures Placements(img, f, to) == Placements(img, f, from)
  {
    hide Placed;
    if from < to {
      PlacementsSkip(img, f, from, to - 1);
    }
  }

  /** The base a search for the anchor has come to. */
  ghost function Reached(img: seq<byte>, r: Run, pos: Option<nat>): nat {
    if pos == None then |img| + 1 else if pos.value < r.0 then 0 else pos.value - r.0
  }

  /** Between two occurrences of the anchor the body does not lie. */
  lemma NoPlacementBetween(img: seq<byte>, f: Body, r: Run, start: nat, next: Option<nat>)
    requires MaximalRun(f, r) && start <= |img| + 1
    requires next.Some? ==> start <= next.value && OccursAt(img, f.data[r.0..r.1], next.value)
    requires forall i :: start <= i < (if next.Some? then next.value else |img| + 1) ==>
      !OccursAt(img, f.data[r.0..r.1], i)
    ensures Placements(img, f, Reached(img, r, next)) == Placements(img, f, if start < r.0 then 0 else start - r.0)
  {
    hide Placed, MaximalRun, OccursAt, Placements;
    var from := if start < r.0 then 0 else start - r.0;
    var to := Reached(img, r, next);
    ReachedAfter(img, f, r, start, next);
    forall b | from <= b < to
      ensures !Placed(img, b, f)
    {
      if Placed(img, b, f) {
        AnchorOccurs(img, b, f, r);
        OccursInside(img, f.data[r.0..r.1], b + r.0);
      }
    }
    PlacementsSkip(img, f, from, to);
  }

  lemma ReachedAfter(img: seq<byte>, f: Body, r: Run, start: nat, next: Option<nat>)
    requires start <= |img| + 1 && (next.Some? ==> start <= next.value)
    ensures (if start < r.0 then 0 else start - r.0) <= Reached(img, r, next)
  {
  }

  lemma OccursInside(img: seq<byte>, needle: seq<byte>, pos: nat)
    requires OccursAt(img, needle, pos)
    ensures pos <= |img|
  {
  }

  lemma {:induction false} PlacementsStable(img: seq<byte>, f: Body, n: nat, m: nat, k: nat)
    requires n <= m && k <= |Placements(img, f, n)|
    ensures First(Placements(img, f, m), k) == First(Placements(img, f, n), k)
    ensures |Placements(img, f, n)| <= |Placements(img, f, m)|
  {
    hide Placed;
    if n < m {
      PlacementsStable(img, f, n, m - 1, k);
    }
  }

  /** All unrelocated bytes agree, checked run by run. */
  method RunsAgree(img: seq<byte>, base: nat, f: Body, runs: seq<Run>) returns (r: bool)
    requires RunsOf(f, runs) && base + |f.data| <= |img|
    ensures r <==> Placed(img, base, f)
  {
    hide Masked, Placed, Agrees;
    PlacedByRuns(img, base, f, runs);
    for i := 0 to |runs|
      invariant forall j :: 0 <= j < i ==> Agrees(img, base, f, runs[j])
    {
      if !Agrees(img, base, f, runs[i]) {
        return false;
      }
    }
    return true;
  }

  function AtLeast0(limit: int): nat { if limit < 0 then 0 else limit }

  /** With a run of at least five bytes to anchor on, the first places the body lies at; without
      one, nothing. */
  method ExactMatches(img: seq<byte>, f: Body, limit: int) returns (out: seq<nat>)
    ensures out ==
      if exists r :: MaximalRun(f, r) && r.1 - r.0 >= 5 then First(Placements(img, f, |img| + 1), AtLeast0(limit))
      else []
  {
    hide Masked, Placed, RunsOf, Placements;
    var runs := UnmaskedRuns(f);
    RunsMaximal(f, runs);
    forall r | MaximalRun(f, r)
      ensures r in runs
    {
      RunListed(f, runs, r);
    }
    if runs == [] {
      return [];
    }
    var anchor := LongestRun(runs);
    if anchor.1 - anchor.0 < 5 {
      return [];
    }
    out := AnchoredMatches(img, f, limit, runs, anchor);
  }

  lemma RunsMaximal(f: Body, runs: seq<Run>)
    requires RunsOf(f, runs)
    ensures forall i :: 0 <= i < |runs| ==> MaximalRun(f, runs[i]) && runs[i].0 < runs[i].1
  {
    hide Masked;
  }

  method AnchoredMatches(img: seq<byte>, f: Body, limit: int, runs: seq<Run>, anchor: Run) returns (out: seq<nat>)
    requires RunsOf(f, runs) && MaximalRun(f, anchor)
    ensures out == First(Placements(img, f, |img| + 1), AtLeast0(limit))
  {
    hide Masked, Placed, Placements, RunsOf, MaximalRun, Reached, OccursAt;
    var needle := f.data[anchor.0..anchor.1];
    out := [];
    var pos := FindSlice(img, needle, 0);
    NoPlacementBetween(img, f, anchor, 0, pos);
    NoPlacements(img, f);
    if pos.Some? {
      OccursInside(img, needle, pos.value);
    }
    while pos.Some? && |out| < limit
      invariant pos.Some? ==> pos.value <= |img|
      invariant out == Placements(img, f, Reached(img, anchor, pos)) && |out| <= AtLeast0(limit)
      decreases if pos.Some? then |img| + 1 - pos.value else 0
    {
      var p := pos.value;
      if p >= anchor.0 && p - anchor.0 + |f.data| <= |img| {
        var agrees := RunsAgree(img, p - anchor.0, f, runs);
        if agrees {
          out := out + [p - anchor.0];
        }
      }
      pos := FindSlice(img, needle, p + 1);
      if pos.Some? {
        OccursInside(img, needle, pos.value);
      }
      Moved(img, f, anchor, p, pos);
    }
    Finished(img, f, anchor, pos, AtLeast0(limit));
  }

  lemma NoPlacements(img: seq<byte>, f: Body)
    ensures Placements(img, f, 0) == []
  {
  }

  lemma Moved(img: seq<byte>, f: Body, r: Run, p: nat, next: Option<nat>)
    requires MaximalRun(f, r) && p <= |img|
    requires next.Some? ==> p + 1 <= next.value && OccursAt(img, f.data[r.0..r.1], next.value)
    requires forall i :: p + 1 <= i < (if next.Some? then next.value else |img| + 1) ==>
      !OccursAt(img, f.data[r.0..r.1], i)
    ensures Placements(img, f, Reached(img, r, next)) == Placements(img, f, Reached(img, r, Some(p)))
      + if p >= r.0 && p - r.0 + |f.data| <= |img| && Placed(img, p - r.0, f) then [p - r.0] else []
  {
    hide Placed, MaximalRun, OccursAt;
    NoPlacementBetween(img, f, r, p + 1, next);
    if p >= r.0 {
      PlacedFits(img, p - r.0, f);
    }
  }

  lemma PlacedFits(img: seq<byte>, base: nat, f: Body)
    ensures Placed(img, base, f) ==> base + |f.data| <= |img|
  {
  }

  lemma Finished(img: seq<byte>, f: Body, r: Run, pos: Option<nat>, limit: nat)
    requires pos == None || |Placements(img, f, Reached(img, r, pos))| == limit
    requires pos.Some? ==> pos.value <= |img|
    requires |Placements(img, f, Reached(img, r, pos))| <= limit
    ensures Placements(img, f, Reached(img, r, pos)) == First(Placements(img, f, |img| + 1), limit)
  {
    hide Placements;
    PlacementsStable(img, f, Reached(img, r, pos), |img| + 1, |Placements(img, f, Reached(img, r, pos))|);
  }

  /** The list of runs leaves no maximal run out. */
  lemma RunListed(f: Body, runs: seq<Run>, r: Run)
    requires RunsOf(f, runs) && MaximalRun(f, r)
    ensures r in runs
  {
    hide Masked;
    assert InSome(runs, r.0);
    var i :| 0 <= i < |runs| && InRun(runs[i], r.0);
    SameRun(f, r, runs[i]);
  }

  /** Two maximal runs that meet are the same. */
  lemma SameRun(f: Body, r: Run, q: Run)
    requires MaximalRun(f, r) && MaximalRun(f, q) && InRun(q, r.0)
    ensures r == q
  {
    hide Masked;
  }

  // ---- Scores ----

  /** The image holds the body's byte. */
  predicate Same(img: seq<byte>, base: nat, f: Body, o: nat) {
    o < |f.data| && base + o < |img| && img[base + o] == f.data[o]
  }

  /** The image holds another byte than the body's unrelocated one. */
  predicate Diverges(img: seq<byte>, base: nat, f: Body, o: nat) {
    o < |f.data| && !Masked(f.relocs, o) && base + o < |img| && img[base + o] != f.data[o]
  }

  /** How many unrelocated offsets below `n` agree. */
  function Agreeing(img: seq<byte>, base: nat, f: Body, n: nat): nat {
    if n == 0 then 0
    else Agreeing(img, base, f, n - 1) + if !Masked(f.relocs, n - 1) && Same(img, base, f, n - 1) then 1 else 0
  }

  function SameIn(img: seq<byte>, base: nat, f: Body, lo: nat, hi: nat): nat {
    if hi <= lo then 0 else SameIn(img, base, f, lo, hi - 1) + if Same(img, base, f, hi - 1) then 1 else 0
  }

  lemma {:induction false} AgreeingGap(img: seq<byte>, base: nat, f: Body, from: nat, to: nat)
    requires from <= to && forall o :: from <= o < to ==> Masked(f.relocs, o) || base + o >= |img|
    ensures Agreeing(img, base, f, to) == Agreeing(img, base, f, from)
    ensures forall o :: from <= o < to ==> !Diverges(img, base, f, o)
  {
    hide Masked;
    if from < to {
      AgreeingGap(img, base, f, from, to - 1);
    }
  }

  lemma {:induction false} AgreeingRun(img: seq<byte>, base: nat, f: Body, s: nat, e: nat)
    requires s <= e && forall o :: s <= o < e ==> !Masked(f.relocs, o)
    ensures Agreeing(img, base, f, e) == Agreeing(img, base, f, s) + SameIn(img, base, f, s, e)
  {
    hide Masked, Same;
    if s < e {
      AgreeingRun(img, base, f, s, e - 1);
    }
  }

  lemma {:induction false} AllSame(img: seq<byte>, base: nat, f: Body, lo: nat, hi: nat)
    requires lo <= hi && forall o :: lo <= o < hi ==> Same(img, base, f, o)
    ensures SameIn(img, base, f, lo, hi) == hi - lo
  {
    hide Same;
    if lo < hi {
      AllSame(img, base, f, lo, hi - 1);
    }
  }

  lemma SlicesAgree(img: seq<byte>, base: nat, f: Body, s: nat, e: nat)
    requires s <= e <= |f.data| && base + e <= |img|
    ensures img[base + s..base + e] == f.data[s..e] <==> forall o :: s <= o < e ==> img[base + o] == f.data[o]
  {
    AgreesPointwise(img, base, f, (s, e));
  }

  /** One run up to the end of the image: where it first differs, and how many bytes agree. */
  method ScoreRun(img: seq<byte>, base: nat, f: Body, s: nat, segEnd: nat) returns (good: nat, matched: nat)
    requires s < segEnd <= |f.data| && base + segEnd <= |img|
    ensures s <= good <= segEnd && forall o :: s <= o < good ==> img[base + o] == f.data[o]
    ensures good < segEnd ==> img[base + good] != f.data[good]
    ensures matched == SameIn(img, base, f, s, segEnd)
  {
    hide SameIn, Agrees;
    SlicesAgree(img, base, f, s, segEnd);
    if img[base + s..base + segEnd] == f.data[s..segEnd] {
      AllSame(img, base, f, s, segEnd);
      return segEnd, segEnd - s;
    }
    good := s;
    while good < segEnd && img[base + good] == f.data[good]
      invariant s <= good <= segEnd && forall o :: s <= o < good ==> img[base + o] == f.data[o]
    {
      good := good + 1;
    }
    AllSame(img, base, f, s, good);
    matched := SameBehind(img, base, f, s, good, segEnd);
  }

  /** Behind a differing byte the rest of the run still counts. */
  method SameBehind(img: seq<byte>, base: nat, f: Body, s: nat, good: nat, segEnd: nat) returns (matched: nat)
    requires s <= good <= segEnd <= |f.data| && base + segEnd <= |img| && SameIn(img, base, f, s, good) == good - s
    requires good < segEnd ==> img[base + good] != f.data[good]
    ensures matched == SameIn(img, base, f, s, segEnd)
  {
    matched := good - s;
    var rest := good + 1;
    while rest < segEnd
      invariant good + 1 <= rest && (good < segEnd ==> rest <= segEnd)
      invariant matched == SameIn(img, base, f, s, if good < segEnd then rest else segEnd)
    {
      if img[base + rest] == f.data[rest] {
        matched := matched + 1;
      }
      rest := rest + 1;
    }
  }

  /** What is known of the score before offset `at`. */
  ghost predicate Scored(img: seq<byte>, base: nat, f: Body, at: nat, diverge: nat, matched: nat) {
    && matched == Agreeing(img, base, f, at) && diverge <= |f.data|
    && (diverge < |f.data| ==> Diverges(img, base, f, diverge))
    && forall o: nat :: o < at && o < diverge ==> !Diverges(img, base, f, o)
  }

  lemma ScoredGap(img: seq<byte>, base: nat, f: Body, from: nat, to: nat, diverge: nat, matched: nat)
    requires Scored(img, base, f, from, diverge, matched) && from <= to
    requires forall o :: from <= o < to ==> Masked(f.relocs, o) || base + o >= |img|
    ensures Scored(img, base, f, to, diverge, matched)
  {
    hide Masked, Diverges;
    AgreeingGap(img, base, f, from, to);
  }

  lemma ScoredRun(img: seq<byte>, base: nat, f: Body, s: nat, segEnd: nat, diverge: nat, matched: nat, good: nat,
                  more: nat)
    requires Scored(img, base, f, s, diverge, matched) && s < segEnd <= |f.data| && base + segEnd <= |img|
    requires forall o :: s <= o < segEnd ==> !Masked(f.relocs, o)
    requires s <= good <= segEnd && forall o :: s <= o < good ==> img[base + o] == f.data[o]
    requires good < segEnd ==> img[base + good] != f.data[good]
    requires more == SameIn(img, base, f, s, segEnd)
    ensures Scored(img, base, f, segEnd, if good < segEnd && good < diverge then good else diverge, matched + more)
  {
    hide Masked, Agreeing, SameIn;
    AgreeingRun(img, base, f, s, segEnd);
  }

  /** The end of the run before run `i`. */
  function Before(runs: seq<Run>, i: nat): nat
    requires i <= |runs|
  {
    if i == 0 then 0 else runs[i - 1].1
  }

  /** Between two runs everything is relocated. */
  lemma GapMasked(f: Body, runs: seq<Run>, i: nat)
    requires RunsOf(f, runs) && i <= |runs|
    ensures var to := if i < |runs| then runs[i].0 else |f.data|;
      Before(runs, i) <= to && forall o :: Before(runs, i) <= o < to ==> Masked(f.relocs, o)
  {
    hide Masked;
    var to := if i < |runs| then runs[i].0 else |f.data|;
    forall o: nat | Before(runs, i) <= o < to
      ensures Masked(f.relocs, o)
    {
      if !Masked(f.relocs, o) {
        assert InSome(runs, o);
        var k :| 0 <= k < |runs| && InRun(runs[k], o);
        NotBetween(f, runs, i, k, o);
      }
    }
  }

  lemma NotBetween(f: Body, runs: seq<Run>, i: nat, k: nat, o: nat)
    requires RunsOf(f, runs) && i <= |runs| && k < |runs| && InRun(runs[k], o)
    ensures !(Before(runs, i) <= o < (if i < |runs| then runs[i].0 else |f.data|))
  {
    hide Masked;
  }

  /** The least unrelocated offset inside the image at which the body differs, or its length; and
      the fraction of unrelocated bytes that agree. */
  method Score(img: seq<byte>, base: nat, f: Body, runs: seq<Run>, total: nat) returns (diverge: nat, fraction: real)
    requires RunsOf(f, runs)
    ensures diverge <= |f.data| && (diverge < |f.data| ==> Diverges(img, base, f, diverge))
    ensures forall o: nat :: o < diverge ==> !Diverges(img, base, f, o)
    ensures fraction == if total == 0 then 0.0 else Agreeing(img, base, f, |f.data|) as real / total as real
  {
    hide Masked, Scored, RunsOf, Diverges, Agreeing, SameIn;
    diverge := |f.data|;
    var matched := 0;
    RunsMaximal(f, runs);
    NothingScored(img, base, f);
    var i := 0;
    while i < |runs|
      invariant 0 <= i <= |runs| && Scored(img, base, f, Before(runs, i), diverge, matched)
      decreases |runs| - i
    {
      var (s, e) := runs[i];
      GapMasked(f, runs, i);
      ScoredGap(img, base, f, Before(runs, i), s, diverge, matched);
      var segEnd := if e < |img| - base then e else |img| - base;
      if segEnd <= s {
        break;
      }
      var good, more := ScoreRun(img, base, f, s, segEnd);
      RunUnmasked(f, runs[i]);
      ScoredRun(img, base, f, s, segEnd, diverge, matched, good, more);
      diverge := if good < segEnd && good < diverge then good else diverge;
      matched := matched + more;
      ScoredGap(img, base, f, segEnd, e, diverge, matched);
      i := i + 1;
    }
    if i == |runs| {
      GapMasked(f, runs, i);
      BeforeInside(f, runs, i);
      ScoredGap(img, base, f, Before(runs, i), |f.data|, diverge, matched);
    } else {
      ScoredGap(img, base, f, runs[i].0, |f.data|, diverge, matched);
    }
    FullyScored(img, base, f, diverge, matched);
    fraction := if total != 0 then matched as real / total as real else 0.0;
  }

  lemma NothingScored(img: seq<byte>, base: nat, f: Body)
    ensures Scored(img, base, f, 0, |f.data|, 0)
  {
  }

  lemma FullyScored(img: seq<byte>, base: nat, f: Body, diverge: nat, matched: nat)
    requires Scored(img, base, f, |f.data|, diverge, matched)
    ensures matched == Agreeing(img, base, f, |f.data|)
    ensures diverge <= |f.data| && (diverge < |f.data| ==> Diverges(img, base, f, diverge))
    ensures forall o: nat :: o < diverge ==> !Diverges(img, base, f, o)
  {
    hide Diverges, Agreeing;
  }

  lemma RunUnmasked(f: Body, r: Run)
    requires MaximalRun(f, r)
    ensures forall o :: r.0 <= o < r.1 ==> !Masked(f.relocs, o)
  {
    hide Masked;
  }

  lemma BeforeInside(f: Body, runs: seq<Run>, i: nat)
    requires RunsOf(f, runs) && i <= |runs|
    ensures Before(runs, i) <= |f.data|
  {
    hide Masked;
  }

  /** How many offsets below `n` are not relocated. */
  function Unrelocated(f: Body, n: nat): nat {
    if n == 0 then 0 else Unrelocated(f, n - 1) + if Masked(f.relocs, n - 1) then 0 else 1
  }

  function RunTotal(runs: seq<Run>, n: nat): int
    requires n <= |runs|
  {
    if n == 0 then 0 else RunTotal(runs, n - 1) + runs[n - 1].1 - runs[n - 1].0
  }

  lemma {:induction false} UnrelocatedStretch(f: Body, from: nat, to: nat, masked: bool)
    requires from <= to && forall o :: from <= o < to ==> Masked(f.relocs, o) == masked
    ensures Unrelocated(f, to) == Unrelocated(f, from) + if masked then 0 else to - from
  {
    hide Masked;
    if from < to {
      UnrelocatedStretch(f, from, to - 1, masked);
    }
  }

  lemma {:induction false} RunsAddUpTo(f: Body, runs: seq<Run>, n: nat)
    requires RunsOf(f, runs) && n <= |runs|
    ensures RunTotal(runs, n) == Unrelocated(f, Before(runs, n))
  {
    hide Masked, RunsOf, Unrelocated;
    if n == 0 {
      NothingUnrelocated(f);
    } else {
      RunsMaximal(f, runs);
      RunsAddUpTo(f, runs, n - 1);
      GapMasked(f, runs, n - 1);
      UnrelocatedStretch(f, Before(runs, n - 1), runs[n - 1].0, true);
      RunUnmasked(f, runs[n - 1]);
      UnrelocatedStretch(f, runs[n - 1].0, runs[n - 1].1, false);
    }
  }

  /** The lengths of the runs add up to the number of unrelocated bytes. */
  lemma RunsAddUp(f: Body, runs: seq<Run>)
    requires RunsOf(f, runs)
    ensures RunTotal(runs, |runs|) == Unrelocated(f, |f.data|)
  {
    hide Masked, RunsOf, Unrelocated, RunTotal;
    RunsAddUpTo(f, runs, |runs|);
    GapMasked(f, runs, |runs|);
    UnrelocatedStretch(f, Before(runs, |runs|), |f.data|, true);
  }

  lemma NothingUnrelocated(f: Body)
    ensures Unrelocated(f, 0) == 0
  {
  }

  /** Inside the image, a body scores its length or all of its bytes exactly where it lies. */
  lemma {:induction false} FullScoreIsPlacement(img: seq<byte>, base: nat, f: Body)
    requires base + |f.data| <= |img|
    ensures Placed(img, base, f) <==> forall o: nat :: !Diverges(img, base, f, o)
    ensures Placed(img, base, f) <==> Agreeing(img, base, f, |f.data|) == Unrelocated(f, |f.data|)
  {
    hide Masked;
    AgreeingAll(img, base, f, |f.data|);
    if forall o: nat :: !Diverges(img, base, f, o) {
      forall o: nat | o < |f.data| && !Masked(f.relocs, o)
        ensures img[base + o] == f.data[o]
      {
        assert !Diverges(img, base, f, o);
      }
    }
  }

  lemma {:induction false} AgreeingAll(img: seq<byte>, base: nat, f: Body, n: nat)
    requires n <= |f.data| && base + |f.data| <= |img|
    ensures Agreeing(img, base, f, n) <= Unrelocated(f, n)
    ensures Agreeing(img, base, f, n) == Unrelocated(f, n) <==>
      forall o :: 0 <= o < n && !Masked(f.relocs, o) ==> img[base + o] == f.data[o]
  {
    hide Masked;
    if n > 0 {
      AgreeingAll(img, base, f, n - 1);
    }
  }
}
