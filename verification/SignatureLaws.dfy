/** Why a signature's offsets are determined by its function body (tools/oovpa/gen_oovpa.py: pick_pairs). */
module SignatureLaws {
  import opened Signatures

  /** The distance of two offsets is what the smaller lacks. */
  lemma DistanceExactly(a: nat, b: nat, d: nat)
    ensures Distance(a, b) == d <==> a + d == b || b + d == a
  {
  }

  /** Target `k` of `want` is the greatest offset not behind `k` of `want - 1` equal steps up to the limit. */
  lemma TargetExactly(k: nat, limit: nat, want: nat)
    requires want > 1
    ensures var t := Target(k, limit, want);
      t * (want - 1) <= k * limit < (t + 1) * (want - 1)
  {
    var t, r := k * limit / (want - 1), k * limit % (want - 1);
    assert k * limit == (want - 1) * t + r;
  }

  /** Both ends are targets. */
  lemma TargetEnds(limit: nat, want: nat)
    requires want > 1
    ensures Target(0, limit, want) == 0 && Target(want - 1, limit, want) == limit
  {
    LastTarget(want, limit);
  }

  /** The greatest offset the targets are spread to is the last of the body, or the greatest allowed
      one if that comes first; no usable offset is behind it. */
  lemma LastOffsetExactly(f: Body, maxOffset: nat)
    requires f.data != []
    ensures var last := LastOffset(f, maxOffset);
      && last + 1 <= |f.data| && last <= maxOffset && (last + 1 == |f.data| || last == maxOffset)
      && forall o: nat :: Usable(f, maxOffset, o) ==> o <= last
  {
  }

  /** An offset is usable when it is in the body, not behind the greatest allowed offset, and in none
      of the four bytes of any relocation. */
  lemma UsableExactly(f: Body, maxOffset: nat, o: nat)
    ensures Usable(f, maxOffset, o) <==>
      o < |f.data| && o < maxOffset + 1 && !(exists r :: r in f.relocs && o in {r, r + 1, r + 2, r + 3})
  {
    if Masked(f.relocs, o) {
      var k :| 0 <= k < |f.relocs| && f.relocs[k] <= o < f.relocs[k] + 4;
      assert f.relocs[k] in f.relocs;
    }
  }

  ghost function OffsetsOf(pairs: seq<Pair>): set<nat> {
    set i | 0 <= i < |pairs| :: pairs[i].0
  }

  ghost predicate Ascending(pairs: seq<Pair>) {
    forall i, j :: 0 <= i < j < |pairs| ==> pairs[i].0 < pairs[j].0
  }

  lemma {:induction false} OffsetsCounted(pairs: seq<Pair>)
    requires Ascending(pairs)
    ensures |OffsetsOf(pairs)| == |pairs|
  {
    if pairs != [] {
      var init, last := pairs[..|pairs| - 1], |pairs| - 1;
      OffsetsCounted(init);
      assert OffsetsOf(pairs) == OffsetsOf(init) + {pairs[last].0};
      assert pairs[last].0 !in OffsetsOf(init);
    }
  }

  /** Two sets of one size either agree or each lacks a member of the other. */
  lemma Exchange(s: set<nat>, t: set<nat>)
    requires |s| == |t| && s != t
    ensures s - t != {} && t - s != {}
  {
    assert |s| == |s * t| + |s - t| by { assert s == s * t + (s - t); }
    assert |t| == |s * t| + |t - s| by { assert t == s * t + (t - s); }
  }

  lemma {:induction false} SameOffsets(a: seq<Pair>, b: seq<Pair>)
    requires Ascending(a) && Ascending(b) && OffsetsOf(a) == OffsetsOf(b)
    ensures |a| == |b| && forall i :: 0 <= i < |a| ==> a[i].0 == b[i].0
  {
    OffsetsCounted(a);
    OffsetsCounted(b);
    if a != [] {
      var m, n := a[..|a| - 1], b[..|b| - 1];
      var last := |a| - 1;
      assert a[last].0 in OffsetsOf(b) && b[last].0 in OffsetsOf(a);
      assert a[last].0 == b[last].0;
      assert OffsetsOf(m) == OffsetsOf(a) - {a[last].0};
      assert OffsetsOf(n) == OffsetsOf(b) - {b[last].0};
      SameOffsets(m, n);
    }
  }

  /** The choice is determined: bytes of the body at ascending usable offsets, as many of them, that
      hold the snapped offsets and besides these only the lowest ones, are the same signature. */
  lemma PicksUnique(f: Body, maxOffset: nat, limit: nat, a: seq<Pair>, b: seq<Pair>)
    requires var usable := AllOffsets(f, maxOffset);
      usable != [] && Picks(usable, limit, a) && Picks(usable, limit, b)
    requires TakenFrom(a, f, maxOffset) && TakenFrom(b, f, maxOffset) && |a| == |b|
    ensures a == b
  {
    hide Snapped, Usable, AllOffsets, HasOffset, Picks;
    var usable := AllOffsets(f, maxOffset);
    AllOffsetsUsable(f, maxOffset);
    var s, t := OffsetsOf(a), OffsetsOf(b);
    OffsetsCounted(a);
    OffsetsCounted(b);
    Membership(a, usable, f, maxOffset);
    Membership(b, usable, f, maxOffset);
    if s != t {
      Exchange(s, t);
      var o :| o in s - t;
      var p :| p in t - s;
      OwnBefore(usable, limit, a, b, o, p);
      OwnBefore(usable, limit, b, a, p, o);
    }
    SameOffsets(a, b);
    assert forall i :: 0 <= i < |a| ==> a[i] == b[i];
  }

  /** An offset only `a` has comes before one only `b` has. */
  lemma OwnBefore(usable: seq<nat>, limit: nat, a: seq<Pair>, b: seq<Pair>, o: nat, p: nat)
    requires usable != [] && Picks(usable, limit, a) && Picks(usable, limit, b) && |a| == |b|
    requires HasOffset(a, o) && !HasOffset(b, o) && !HasOffset(a, p) && p in usable
    ensures o < p
  {
    hide Snapped, HasOffset;
    assert !Snapped(usable, limit, |b|, |b|, o);
  }

  lemma Membership(pairs: seq<Pair>, usable: seq<nat>, f: Body, maxOffset: nat)
    requires TakenFrom(pairs, f, maxOffset) && AllUsable(f, maxOffset, usable)
    ensures forall o :: o in OffsetsOf(pairs) <==> HasOffset(pairs, o)
    ensures forall o :: o in OffsetsOf(pairs) ==> o in usable
  {
    hide Usable;
  }
}
