/** The media-enable patch of executables (xiso.cpp: write_files). */
module XisoMedia {
  import opened Bytes
  import opened XisoLayout

  const PATTERN: seq<byte> := [0xE8, 0xCA, 0xFD, 0xFF, 0xFF, 0x85, 0xC0, 0x7D]
  const PATCH_BYTE: byte := 0xEB

  const XBE_LOWER: seq<byte> := [0x2E, 0x78, 0x62, 0x65]
  const XBE_UPPER: seq<byte> := [0x2E, 0x58, 0x42, 0x45]

  predicate IsXbe(name: Name) {
    |name| >= 4 && (name[|name| - 4..] == XBE_LOWER || name[|name| - 4..] == XBE_UPPER)
  }

  /** The pattern is found at `i`. */
  predicate Occurs(data: seq<byte>, i: int) {
    && 0 <= i && i + 8 <= |data|
    && data[i] == 0xE8 && data[i + 1] == 0xCA && data[i + 2] == 0xFD && data[i + 3] == 0xFF
    && data[i + 4] == 0xFF && data[i + 5] == 0x85 && data[i + 6] == 0xC0 && data[i + 7] == 0x7D
  }

  lemma OccursIsMatch(data: seq<byte>, i: nat)
    requires i + 8 <= |data|
    ensures Occurs(data, i) <==> data[i..i + 8] == PATTERN
  {
    var part := data[i..i + 8];
    assert part[0] == data[i] && part[1] == data[i + 1] && part[2] == data[i + 2] && part[3] == data[i + 3];
    assert part[4] == data[i + 4] && part[5] == data[i + 5] && part[6] == data[i + 6] && part[7] == data[i + 7];
  }

  /** One chunk with the last byte of every occurrence replaced. */
  function PatchOne(data: seq<byte>): (r: seq<byte>)
    ensures |r| == |data|
    ensures forall k :: 0 <= k < |data| ==> r[k] == if Occurs(data, k - 7) then PATCH_BYTE else data[k]
  {
    seq(|data|, k requires 0 <= k < |data| => if Occurs(data, k - 7) then PATCH_BYTE else data[k])
  }

  /** The file as written: every 2 MiB chunk is patched on its own. */
  function PatchChunks(data: seq<byte>): (r: seq<byte>)
    ensures |r| == |data|
    decreases |data|
  {
    if |data| <= RW_BUF_SIZE then PatchOne(data)
    else PatchOne(data[..RW_BUF_SIZE]) + PatchChunks(data[RW_BUF_SIZE..])
  }

  /** Occurrences of the pattern never overlap. */
  lemma NoOverlap(data: seq<byte>, i: nat, j: nat)
    requires Occurs(data, i) && i < j < i + 8 && j < |data|
    ensures data[j] != 0xE8
  {
  }

  /** `now` is `was` with the occurrences that start before `i` patched. */
  ghost predicate PatchedBefore(was: seq<byte>, now: seq<byte>, i: int) {
    && |now| == |was|
    && forall k :: 0 <= k < |was| ==> now[k] == if k - 7 < i && Occurs(was, k - 7) then PATCH_BYTE else was[k]
  }

  /** Whether the pattern is found at `i` is not affected by the patches made before it. */
  lemma SameMatch(was: seq<byte>, now: seq<byte>, i: nat)
    requires i + 8 <= |was| && PatchedBefore(was, now, i)
    ensures Occurs(now, i) <==> Occurs(was, i)
  {
    hide Occurs, PatchedBefore;
    if j :| 0 <= j < i && i < j + 8 && Occurs(was, j) {
      NoOverlap(was, j, i);
      StillNotFirst(was, now, i);
      NotFirst(was, i);
      NotFirst(now, i);
    } else {
      Untouched(was, now, i);
      SameWindow(was, now, i);
    }
  }

  lemma StillNotFirst(was: seq<byte>, now: seq<byte>, i: nat)
    requires i < |was| && PatchedBefore(was, now, i) && was[i] != 0xE8
    ensures |now| == |was| && now[i] != 0xE8
  {
  }

  lemma Untouched(was: seq<byte>, now: seq<byte>, i: nat)
    requires i + 8 <= |was| && PatchedBefore(was, now, i)
    requires forall j :: 0 <= j < i && i < j + 8 ==> !Occurs(was, j)
    ensures |now| == |was| && forall k :: i <= k < i + 8 ==> was[k] == now[k]
  {
  }

  lemma NotFirst(data: seq<byte>, i: nat)
    requires i < |data| && data[i] != 0xE8
    ensures !Occurs(data, i)
  {
  }

  lemma SameWindow(was: seq<byte>, now: seq<byte>, i: nat)
    requires i + 8 <= |was| == |now|
    requires forall k :: i <= k < i + 8 ==> was[k] == now[k]
    ensures Occurs(now, i) <==> Occurs(was, i)
  {
  }

  /** One more position of the buffer handled. */
  lemma PatchedStep(was: seq<byte>, now: seq<byte>, i: nat)
    requires i + 8 <= |was| && PatchedBefore(was, now, i)
    ensures PatchedBefore(was, if Occurs(was, i) then now[i + 7 := PATCH_BYTE] else now, i + 1)
  {
    hide Occurs;
  }

  /** Patch the first `chunk` bytes of the copy buffer in place. */
  method PatchBuffer(buf: array<byte>, chunk: nat)
    requires chunk <= buf.Length
    modifies buf
    ensures buf[..chunk] == PatchOne(old(buf[..chunk]))
    ensures buf[chunk..] == old(buf[chunk..])
  {
    hide Occurs, PatchedBefore;
    ghost var was, rest := buf[..chunk], buf[chunk..];
    NothingPatched(was);
    var i := 0;
    if chunk >= 8 {
      while i + 8 <= chunk
        invariant i <= chunk - 7 && |was| == chunk
        invariant PatchedBefore(was, buf[..chunk], i)
        invariant buf[chunk..] == rest
      {
        SameMatch(was, buf[..chunk], i);
        PatchedStep(was, buf[..chunk], i);
        OccursIsMatch(buf[..chunk], i);
        assert buf[i..i + 8] == buf[..chunk][i..i + 8];
        if buf[i..i + 8] == PATTERN {
          ghost var before := buf[..chunk];
          buf[i + 7] := PATCH_BYTE;
          assert buf[..chunk] == before[i + 7 := PATCH_BYTE];
        }
        i := i + 1;
      }
    }
    AllPatched(was, buf[..chunk], i);
  }

  lemma NothingPatched(was: seq<byte>)
    ensures PatchedBefore(was, was, 0)
  {
  }

  lemma AllPatched(was: seq<byte>, now: seq<byte>, i: int)
    requires PatchedBefore(was, now, i) && i + 8 > |was|
    ensures now == PatchOne(was)
  {
  }

  // ---- What the chunked patch reaches ----

  /** An occurrence at `i` lies within one 2 MiB chunk. */
  predicate InOneChunk(i: nat) {
    i % RW_BUF_SIZE + 8 <= RW_BUF_SIZE
  }

  lemma InOneChunkShift(i: nat)
    ensures InOneChunk(i + RW_BUF_SIZE) <==> InOneChunk(i)
  {
  }

  lemma OccursInPart(data: seq<byte>, from: nat, to: nat, i: int)
    requires from <= to <= |data|
    ensures Occurs(data[from..to], i) <==> 0 <= i && from + i + 8 <= to && Occurs(data, from + i)
  {
  }

  /** Exactly the occurrences that lie within one 2 MiB chunk are patched; every other byte
      is written as it was read. */
  lemma {:induction false} PatchedByte(data: seq<byte>, k: nat)
    requires k < |data|
    ensures PatchChunks(data)[k] ==
      if k >= 7 && Occurs(data, k - 7) && InOneChunk(k - 7) then PATCH_BYTE else data[k]
    decreases |data|
  {
    hide Occurs, InOneChunk;
    var cut := if |data| <= RW_BUF_SIZE then |data| else RW_BUF_SIZE;
    OccursInPart(data, 0, cut, k - 7);
    if k < cut {
      assert data[..cut] == data[0..cut];
      if k >= 7 { FirstChunk(k - 7); }
      assert cut == |data| ==> data[0..cut] == data;
    } else {
      var rest, m := data[RW_BUF_SIZE..], k - RW_BUF_SIZE;
      PatchedByte(rest, m);
      assert rest == data[RW_BUF_SIZE..|data|];
      OccursInPart(data, RW_BUF_SIZE, |data|, m - 7);
      if m >= 7 { InOneChunkShift(m - 7); }
      else if k >= 7 { CrossesChunk(k - 7); }
    }
  }

  lemma FirstChunk(i: nat)
    requires i + 8 <= RW_BUF_SIZE
    ensures InOneChunk(i)
  {
  }

  lemma CrossesChunk(i: nat)
    requires i < RW_BUF_SIZE < i + 8
    ensures !InOneChunk(i)
  {
  }

  /** The chunked patch misses nothing exactly when no occurrence crosses a chunk boundary. */
  lemma PatchComplete(data: seq<byte>)
    ensures PatchChunks(data) == PatchOne(data) <==> forall i: nat :: Occurs(data, i) ==> InOneChunk(i)
  {
    hide InOneChunk, Occurs, PatchChunks, PatchOne;
    if PatchChunks(data) == PatchOne(data) {
      forall i: nat | Occurs(data, i) ensures InOneChunk(i) {
        WithinChunk(data, i);
      }
    }
    if forall i: nat :: Occurs(data, i) ==> InOneChunk(i) {
      NothingMissed(data);
    }
  }

  /** A file whose only occurrence crosses the first chunk boundary is not patched. */
  lemma PatchMisses()
    ensures var data := seq(RW_BUF_SIZE - 4, _ => 0) + PATTERN;
      && Occurs(data, RW_BUF_SIZE - 4) && !InOneChunk(RW_BUF_SIZE - 4)
      && PatchOne(data)[|data| - 1] == PATCH_BYTE && PatchChunks(data)[|data| - 1] == 0x7D
      && PatchChunks(data) != PatchOne(data)
  {
    hide PatchChunks;
    var data: seq<byte> := seq(RW_BUF_SIZE - 4, _ => 0) + PATTERN;
    assert Occurs(data, RW_BUF_SIZE - 4);
    PatchedByte(data, |data| - 1);
    PatchComplete(data);
  }

  lemma WithinChunk(data: seq<byte>, i: nat)
    requires Occurs(data, i) && PatchChunks(data) == PatchOne(data)
    ensures InOneChunk(i)
  {
    hide InOneChunk, PatchChunks;
    PatchedByte(data, i + 7);
    PatchOneAt(data, i);
  }

  lemma NothingMissed(data: seq<byte>)
    requires forall i: nat :: Occurs(data, i) ==> InOneChunk(i)
    ensures PatchChunks(data) == PatchOne(data)
  {
    hide InOneChunk, PatchChunks, PatchOne;
    forall k | 0 <= k < |data| ensures PatchChunks(data)[k] == PatchOne(data)[k] {
      PatchedByte(data, k);
    }
  }

  lemma PatchOneAt(data: seq<byte>, i: nat)
    requires Occurs(data, i)
    ensures PatchOne(data)[i + 7] == PATCH_BYTE && data[i + 7] != PATCH_BYTE
  {
  }

  lemma UnfoldChunks(data: seq<byte>)
    requires |data| > RW_BUF_SIZE
    ensures PatchChunks(data)[..RW_BUF_SIZE] == PatchOne(data[..RW_BUF_SIZE])
    ensures PatchChunks(data)[RW_BUF_SIZE..] == PatchChunks(data[RW_BUF_SIZE..])
  {
    hide PatchOne;
  }

  /** The written bytes of the `n`-th chunk are that chunk, patched. */
  lemma {:induction false} ChunkPatched(data: seq<byte>, n: nat, off: nat, len: nat)
    requires off == n * RW_BUF_SIZE && off < |data|
    requires len == if |data| - off < RW_BUF_SIZE then |data| - off else RW_BUF_SIZE
    ensures PatchChunks(data)[off..off + len] == PatchOne(data[off..off + len])
    decreases n
  {
    hide Occurs, PatchOne;
    var p := PatchChunks(data);
    if |data| > RW_BUF_SIZE {
      UnfoldChunks(data);
      if n == 0 {
        assert p[0..len] == p[..len] && data[0..len] == data[..len];
      } else {
        var rest, from := data[RW_BUF_SIZE..], off - RW_BUF_SIZE;
        ChunkPatched(rest, n - 1, from, len);
        assert rest[from..from + len] == data[off..off + len];
        assert p[off..off + len] == p[RW_BUF_SIZE..][from..from + len];
      }
    } else {
      assert data[0..len] == data && p[0..len] == p;
    }
  }
}
