/** What the contents of captured memory mean in terms of the observations alone
    (nv2a_capture.py: overlay_unknown, read_observed). */
module PixelMemoryLaws {
  import opened Bytes
  import opened Wrappers
  import opened PixelMemory

  ghost predicate Covers(o: Observation, a: nat) {
    o.address <= a < o.address + |o.data|
  }

  // ---- The oldest byte ----

  /** Observation `i` is the first to cover `a`. */
  ghost predicate FirstAt(obs: seq<Observation>, a: nat, i: nat) {
    i < |obs| && Covers(obs[i], a) && forall j :: 0 <= j < i ==> !Covers(obs[j], a)
  }

  /** A region keeps the byte of the first observation that covers an address, and no byte
      if and only if none does. */
  lemma {:induction false} OldestExactly(obs: seq<Observation>, a: nat)
    ensures Oldest(obs, a) == None <==> forall i :: 0 <= i < |obs| ==> !Covers(obs[i], a)
    ensures forall i: nat :: FirstAt(obs, a, i) ==> Oldest(obs, a) == Some(obs[i].data[a - obs[i].address])
  {
    if obs != [] {
      var last := |obs| - 1;
      var init := obs[..last];
      OldestExactly(init, a);
      assert forall j :: 0 <= j < last ==> init[j] == obs[j];
      assert Oldest(obs, a) == if Oldest(init, a).Some? then Oldest(init, a) else ByteOf(obs[last], a);
      assert Oldest(init, a) == None <==> forall j :: 0 <= j < last ==> !Covers(obs[j], a);
      forall i: nat | FirstAt(obs, a, i)
        ensures Oldest(obs, a) == Some(obs[i].data[a - obs[i].address])
      {
        if i < last {
          assert FirstAt(init, a, i);
        }
      }
    }
  }

  /** The observations that show another byte than the first one. */
  ghost function Disagreeing(obs: seq<Observation>, a: nat, v: byte): set<nat> {
    set i: nat | i < |obs| && Covers(obs[i], a) && obs[i].data[a - obs[i].address] != v
  }

  lemma OneMore(obs: seq<Observation>, a: nat, v: byte)
    requires obs != []
    ensures var last := |obs| - 1;
      && last !in Disagreeing(obs[..last], a, v)
      && Disagreeing(obs, a, v) == Disagreeing(obs[..last], a, v) +
        if ByteOf(obs[last], a).Some? && ByteOf(obs[last], a).value != v then {last} else {}
  {
  }

  lemma {:induction false} OthersCounted(obs: seq<Observation>, a: nat, v: byte)
    ensures Others(obs, a, v) == |Disagreeing(obs, a, v)|
  {
    hide ByteOf;
    if obs == [] {
      assert Disagreeing(obs, a, v) == {};
    } else {
      var last := |obs| - 1;
      var init := obs[..last];
      OthersCounted(init, a, v);
      OneMore(obs, a, v);
    }
  }

  /** At one address as many conflicts are counted as there are observations that show another
      byte than the first one that covers it. */
  lemma DisagreementsExactly(obs: seq<Observation>, a: nat, i: nat)
    requires FirstAt(obs, a, i)
    ensures Disagreements(obs, a) == |Disagreeing(obs, a, obs[i].data[a - obs[i].address])|
  {
    hide Oldest, Others;
    OldestExactly(obs, a);
    OthersCounted(obs, a, obs[i].data[a - obs[i].address]);
  }

  // ---- The newest byte ----

  /** Observation `i` is the last to cover one of two addresses. */
  ghost predicate LastAt(obs: seq<Observation>, a: nat, b: nat, i: nat) {
    && i < |obs| && (Covers(obs[i], a) || Covers(obs[i], b))
    && forall j :: i < j < |obs| ==> !Covers(obs[j], a) && !Covers(obs[j], b)
  }

  /** Where the same physical byte is seen uncached: the lower 26 bits behind 0x80000000. */
  ghost predicate SeenBehind(address: nat, alias: nat) {
    0x8000_0000 <= alias < 0x8400_0000 && exists n: nat :: alias - 0x8000_0000 + n * 0x400_0000 == address
  }

  lemma AliasExactly(address: nat)
    ensures SeenBehind(address, Alias(address))
    ensures forall alias: nat :: SeenBehind(address, alias) ==> alias == Alias(address)
  {
    assert Alias(address) - 0x8000_0000 + (address / 0x400_0000) * 0x400_0000 == address;
    forall alias: nat | SeenBehind(address, alias)
      ensures alias == Alias(address)
    {
      var n: nat :| alias - 0x8000_0000 + n * 0x400_0000 == address;
      Remainder(alias - 0x8000_0000, n);
    }
  }

  lemma Remainder(r: nat, n: nat)
    requires r < 0x400_0000
    ensures (r + n * 0x400_0000) % 0x400_0000 == r
  {
  }

  /** The byte an observation shows at an address, or else behind its alias. */
  ghost function Shown(o: Observation, a: nat, b: nat): Option<byte> {
    if Covers(o, a) then Some(o.data[a - o.address])
    else if Covers(o, b) then Some(o.data[b - o.address])
    else None
  }

  lemma EitherShown(o: Observation, address: nat, k: nat, alias: nat)
    requires SeenBehind(address, alias)
    ensures AtEither(o, address, k) == Shown(o, address + k, alias + k)
    ensures Shown(o, address + k, alias + k) == None <==> !Covers(o, address + k) && !Covers(o, alias + k)
  {
    AliasExactly(address);
    hide Alias, SeenBehind;
  }

  /** Byte `k` of a range is that of the last observation that covers it at its own address or
      behind its alias, at its own address when it is covered at both; it is unknown if and only if
      no observation covers either. */
  lemma {:induction false} NewestExactly(obs: seq<Observation>, address: nat, k: nat, alias: nat)
    requires SeenBehind(address, alias)
    ensures Newest(obs, address, k) == None <==>
      forall i :: 0 <= i < |obs| ==> !Covers(obs[i], address + k) && !Covers(obs[i], alias + k)
    ensures forall i: nat :: LastAt(obs, address + k, alias + k, i) ==>
      Newest(obs, address, k) == Shown(obs[i], address + k, alias + k)
  {
    hide Shown, SeenBehind, Covers, AtEither;
    if obs != [] {
      var rest := obs[1..];
      NewestExactly(rest, address, k, alias);
      EitherShown(obs[0], address, k, alias);
      assert forall j :: 0 < j < |obs| ==> rest[j - 1] == obs[j];
      assert Newest(rest, address, k) == None <==>
        forall j :: 0 < j < |obs| ==> !Covers(obs[j], address + k) && !Covers(obs[j], alias + k) by {
        assert forall j :: 0 <= j < |rest| ==> obs[j + 1] == rest[j];
      }
      forall i: nat | LastAt(obs, address + k, alias + k, i)
        ensures Newest(obs, address, k) == Shown(obs[i], address + k, alias + k)
      {
        if i > 0 {
          LastLater(obs, address + k, alias + k, i);
          EitherShown(obs[i], address, k, alias);
        }
      }
    }
  }

  lemma LastLater(obs: seq<Observation>, a: nat, b: nat, i: nat)
    requires i > 0 && LastAt(obs, a, b, i)
    ensures LastAt(obs[1..], a, b, i - 1) && obs[1..][i - 1] == obs[i]
  {
    hide Covers;
  }

  /** A range is read back if every byte of it is known, and then its bytes are returned in order. */
  lemma ReadWhole(obs: seq<Observation>, address: nat, size: nat)
    requires forall k :: 0 <= k < size ==> Newest(obs, address, k).Some?
    ensures var r := NewestBytes(obs, address, size);
      && r.Some? && |r.value| == size
      && forall k :: 0 <= k < size ==> Newest(obs, address, k) == Some(r.value[k])
  {
    hide Newest;
    assert NewestBytes(obs, address, size)
      == Some(seq(size, k requires 0 <= k < size => Newest(obs, address, k).value));
  }

  /** A range with an unknown byte is not read back. */
  lemma ReadPartly(obs: seq<Observation>, address: nat, size: nat, k: nat)
    requires k < size && Newest(obs, address, k) == None
    ensures NewestBytes(obs, address, size) == None
  {
    hide Newest;
  }
}
