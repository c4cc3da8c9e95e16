/** Bytes, little-endian fields and in-place buffer stores (xdfs.h). */
module Bytes {
  type byte = x: int | 0 <= x < 0x100
  type u16 = x: int | 0 <= x < 0x1_0000
  type u32 = x: int | 0 <= x < 0x1_0000_0000

  function Zeros(n: nat): (r: seq<byte>)
    ensures |r| == n && forall i :: 0 <= i < n ==> r[i] == 0
  {
    seq(n, _ => 0)
  }

  function Le16(v: u16): (r: seq<byte>)
    ensures |r| == 2
  {
    [v % 0x100, v / 0x100]
  }

  function Le32(v: u32): (r: seq<byte>)
    ensures |r| == 4
  {
    [v % 0x100, v / 0x100 % 0x100, v / 0x1_0000 % 0x100, v / 0x100_0000]
  }

  function RdLe16(p: seq<byte>, off: nat): u16
    requires off + 2 <= |p|
  {
    p[off] as int + 0x100 * (p[off + 1] as int)
  }

  function RdLe32(p: seq<byte>, off: nat): u32
    requires off + 4 <= |p|
  {
    p[off] as int + 0x100 * (p[off + 1] as int) + 0x1_0000 * (p[off + 2] as int) + 0x100_0000 * (p[off + 3] as int)
  }

  /** `data` stored over `s` at `off`. */
  function Splice(s: seq<byte>, off: nat, data: seq<byte>): (r: seq<byte>)
    requires off + |data| <= |s|
    ensures |r| == |s|
    ensures forall k :: 0 <= k < |s| ==>
      r[k] == if off <= k < off + |data| then data[k - off] else s[k]
  {
    s[..off] + data + s[off + |data|..]
  }

  /** `data` sits in `s` at `off`. */
  ghost predicate At(s: seq<byte>, off: nat, data: seq<byte>) {
    off + |data| <= |s| && s[off..off + |data|] == data
  }

  /** Reading a field back from wherever its encoding sits gives the value. */
  lemma ReadBack16(s: seq<byte>, off: nat, v: u16)
    requires At(s, off, Le16(v))
    ensures RdLe16(s, off) == v
  {
    assert s[off..off + 2][0] == s[off] && s[off..off + 2][1] == s[off + 1];
  }

  lemma ReadBack32(s: seq<byte>, off: nat, v: u32)
    requires At(s, off, Le32(v))
    ensures RdLe32(s, off) == v
  {
    var f := s[off..off + 4];
    assert f[0] == s[off] && f[1] == s[off + 1];
    assert f[2] == s[off + 2] && f[3] == s[off + 3];
    Assemble(v);
  }

  lemma Assemble(v: u32)
    ensures v % 0x100 + 0x100 * (v / 0x100 % 0x100) + 0x1_0000 * (v / 0x1_0000 % 0x100)
            + 0x100_0000 * (v / 0x100_0000) == v
  {
    assert v / 0x100 == v / 0x100 % 0x100 + 0x100 * (v / 0x1_0000);
    assert v / 0x1_0000 == v / 0x1_0000 % 0x100 + 0x100 * (v / 0x100_0000);
  }

  lemma AtBytes(s: seq<byte>, off: nat, data: seq<byte>)
    requires off + |data| <= |s|
    requires forall k :: off <= k < off + |data| ==> s[k] == data[k - off]
    ensures At(s, off, data)
  {
  }

  /** A part of something that sits at `off` sits at `off` plus its own place. */
  lemma AtPart(s: seq<byte>, off: nat, data: seq<byte>, part: seq<byte>, at: nat)
    requires At(s, off, data) && At(data, at, part)
    ensures At(s, off + at, part)
  {
    forall k | 0 <= k < |part| ensures s[off + at + k] == part[k] {
      assert s[off..off + |data|][at + k] == data[at + k] == data[at..at + |part|][k];
    }
  }

  method WrLe16(p: array<byte>, off: nat, v: u16)
    requires off + 2 <= p.Length
    modifies p
    ensures p[..] == Splice(old(p[..]), off, Le16(v))
  {
    p[off] := v % 0x100;
    p[off + 1] := v / 0x100;
  }

  method WrLe32(p: array<byte>, off: nat, v: u32)
    requires off + 4 <= p.Length
    modifies p
    ensures p[..] == Splice(old(p[..]), off, Le32(v))
  {
    p[off] := v % 0x100;
    p[off + 1] := v / 0x100 % 0x100;
    p[off + 2] := v / 0x1_0000 % 0x100;
    p[off + 3] := v / 0x100_0000;
  }
}
