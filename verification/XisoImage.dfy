/** The image file: positioned writes, and when their order does not matter. */
module XisoImage {
  import opened Bytes
  import opened Numbers

  datatype Write = Write(off: nat, data: seq<byte>)

  /** A file after writing `data` at `off`: a write past the end leaves a zero gap. */
  function Put(img: seq<byte>, off: nat, data: seq<byte>): (r: seq<byte>)
    ensures data == [] ==> r == img
    ensures data != [] ==> |r| == if |img| < off + |data| then off + |data| else |img|
    ensures data != [] ==> forall p :: 0 <= p < |r| ==>
      r[p] == if off <= p < off + |data| then data[p - off] else if p < |img| then img[p] else 0
  {
    if data == [] then img
    else
      var room := if |img| < off + |data| then img + Zeros(off + |data| - |img|) else img;
      Splice(room, off, data)
  }

  /** The writes of `ws` in turn. */
  function Apply(ws: seq<Write>, img: seq<byte>): seq<byte> {
    if ws == [] then img
    else
      var last := |ws| - 1;
      Put(Apply(ws[..last], img), ws[last].off, ws[last].data)
  }

  predicate Covers(w: Write, p: nat) {
    w.off <= p < w.off + |w.data|
  }

  /** No two writes of the set disagree about a byte. */
  ghost predicate Consistent(ws: set<Write>) {
    forall v, w, p: nat :: v in ws && w in ws && Covers(v, p) && Covers(w, p) ==>
      v.data[p - v.off] == w.data[p - w.off]
  }

  ghost function Elems(ws: seq<Write>): set<Write> {
    set w | w in ws
  }

  lemma {:induction false} ApplyConcat(a: seq<Write>, b: seq<Write>, img: seq<byte>)
    ensures Apply(a + b, img) == Apply(b, Apply(a, img))
    decreases |b|
  {
    if b == [] {
      assert a + b == a;
    } else {
      ApplyConcat(a, b[..|b| - 1], img);
      assert (a + b)[..|a + b| - 1] == a + b[..|b| - 1];
    }
  }

  /** Two adjacent writes are one. */
  lemma PutAdjacent(img: seq<byte>, off: nat, a: seq<byte>, b: seq<byte>)
    ensures Put(Put(img, off, a), off + |a|, b) == Put(img, off, a + b)
  {
    if a == [] {
      assert a + b == b;
    } else if b == [] {
      assert a + b == a;
    }
  }

  /** A byte no write covers keeps its value; a gap byte is zero. */
  lemma {:induction false} ApplyMisses(ws: seq<Write>, img: seq<byte>, p: nat)
    requires forall w :: w in ws ==> !Covers(w, p)
    ensures |img| <= |Apply(ws, img)|
    ensures p < |Apply(ws, img)| ==> Apply(ws, img)[p] == if p < |img| then img[p] else 0
    decreases |ws|
  {
    if ws != [] {
      var last := |ws| - 1;
      assert ws[last] in ws;
      ApplyMisses(ws[..last], img, p);
    }
  }

  /** Two writes of a consistent list agree where both write, and so does any part of the list. */
  lemma AgreeAt(ws: seq<Write>, v: Write, w: Write, p: nat)
    requires Consistent(Elems(ws)) && v in ws && w in ws
    ensures Covers(v, p) && Covers(w, p) ==> v.data[p - v.off] == w.data[p - w.off]
    ensures Consistent(Elems(ws[..|ws| - 1]))
  {
    assert v in Elems(ws) && w in Elems(ws);
    assert Elems(ws[..|ws| - 1]) <= Elems(ws);
  }

  /** Among writes that do not disagree, every covered byte ends up as written. */
  lemma {:induction false} ApplyCovers(ws: seq<Write>, img: seq<byte>, w: Write, p: nat)
    requires Consistent(Elems(ws)) && w in ws && Covers(w, p)
    ensures p < |Apply(ws, img)| && Apply(ws, img)[p] == w.data[p - w.off]
    decreases |ws|
  {
    hide Consistent;
    var last := |ws| - 1;
    var rest := ws[..last];
    AgreeAt(ws, ws[last], w, p);
    if !Covers(ws[last], p) {
      assert w in rest;
      ApplyCovers(rest, img, w, p);
    }
  }

  /** Every write of a consistent list can be read back from the result. */
  lemma ApplyKeeps(ws: seq<Write>, img: seq<byte>, w: Write)
    requires Consistent(Elems(ws)) && w in ws && w.data != []
    ensures At(Apply(ws, img), w.off, w.data)
  {
    var r := Apply(ws, img);
    forall p: nat | Covers(w, p) ensures p < |r| && r[p] == w.data[p - w.off] {
      ApplyCovers(ws, img, w, p);
    }
    CoveredAt(r, w);
  }

  lemma CoveredAt(r: seq<byte>, w: Write)
    requires w.data != []
    requires forall p: nat :: Covers(w, p) ==> p < |r| && r[p] == w.data[p - w.off]
    ensures At(r, w.off, w.data)
  {
    assert Covers(w, w.off + |w.data| - 1);
    forall p | w.off <= p < w.off + |w.data| ensures r[p] == w.data[p - w.off] {
      assert Covers(w, p);
    }
    AtBytes(r, w.off, w.data);
  }

  /** How far a list of writes reaches. */
  ghost function Reach(ws: seq<Write>): nat {
    if ws == [] then 0
    else
      var w := ws[|ws| - 1];
      Max(Reach(ws[..|ws| - 1]), if w.data == [] then 0 else w.off + |w.data|)
  }

  lemma {:induction false} ApplyLength(ws: seq<Write>, img: seq<byte>)
    ensures |Apply(ws, img)| == Max(|img|, Reach(ws))
    decreases |ws|
  {
    if ws != [] {
      ApplyLength(ws[..|ws| - 1], img);
    }
  }

  /** A byte that is in reach of the writes is in reach of one of them. */
  lemma {:induction false} ReachWitness(ws: seq<Write>)
    ensures forall w :: w in ws && w.data != [] ==> w.off + |w.data| <= Reach(ws)
    ensures Reach(ws) > 0 ==> exists w :: w in ws && w.data != [] && w.off + |w.data| == Reach(ws)
    decreases |ws|
  {
    if ws != [] {
      var rest := ws[..|ws| - 1];
      ReachWitness(rest);
      assert forall w :: w in ws <==> w in rest || w == ws[|ws| - 1];
    }
  }

  /** The order of writes that do not disagree does not matter, nor does repeating one:
      the image depends only on the set of writes. */
  lemma OrderIrrelevant(a: seq<Write>, b: seq<Write>, img: seq<byte>)
    requires Elems(a) == Elems(b) && Consistent(Elems(a))
    ensures Apply(a, img) == Apply(b, img)
  {
    assert forall w :: w in a <==> w in Elems(a);
    assert forall w :: w in b <==> w in Elems(b);
    ReachWitness(a);
    ReachWitness(b);
    ApplyLength(a, img);
    ApplyLength(b, img);
    var x, y := Apply(a, img), Apply(b, img);
    forall p | 0 <= p < |x| ensures x[p] == y[p] {
      if w :| w in a && Covers(w, p) {
        ApplyCovers(a, img, w, p);
        ApplyCovers(b, img, w, p);
      } else {
        ApplyMisses(a, img, p);
        ApplyMisses(b, img, p);
      }
    }
  }

  /** A positioned output stream on the image file. */
  class OutStream {
    var bytes: seq<byte>
    var pos: nat

    constructor ()
      ensures bytes == [] && pos == 0
    {
      bytes, pos := [], 0;
    }

    method Seek(p: nat)
      modifies this
      ensures pos == p && bytes == old(bytes)
    {
      pos := p;
    }

    method SeekEnd()
      modifies this
      ensures pos == |bytes| && bytes == old(bytes)
    {
      pos := |bytes|;
    }

    method WriteAll(data: seq<byte>)
      modifies this
      ensures bytes == Put(old(bytes), old(pos), data)
      ensures pos == old(pos) + |data|
    {
      bytes := Put(bytes, pos, data);
      pos := pos + |data|;
    }
  }
}
