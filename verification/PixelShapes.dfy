/** The shapes primitives are cut into (nv2a_capture.py: triangle_indices). */
module PixelShapes {
  import opened Wrappers
  import opened PixelDraw

  type Triangle = (nat, nat, nat)

  function Cut(primitive: nat, count: nat): seq<Triangle>
    requires SupportedPrimitive(primitive)
  {
    TrianglesOfPrimitive(primitive, count);
    TriangleIndices(primitive, count).value
  }

  /** The corners of triangles one after the other. */
  function Corners(ts: seq<Triangle>): seq<nat> {
    if ts == [] then []
    else var t := ts[|ts| - 1]; Corners(ts[..|ts| - 1]) + [t.0, t.1, t.2]
  }

  ghost predicate CountsUp(s: seq<nat>) {
    forall i :: 0 <= i < |s| ==> s[i] == i
  }

  lemma {:induction false} CornersCount(ts: seq<Triangle>)
    requires forall k :: 0 <= k < |ts| ==> ts[k] == (3 * k, 3 * k + 1, 3 * k + 2)
    ensures |Corners(ts)| == 3 * |ts| && CountsUp(Corners(ts))
  {
    if ts != [] {
      CornersCount(ts[..|ts| - 1]);
    }
  }

  /** A list: the vertices in order, three to a triangle, those that are left over dropped. */
  lemma ListShape(count: nat)
    ensures var ts := Cut(5, count);
      |Corners(ts)| == count / 3 * 3 && CountsUp(Corners(ts))
  {
    TriangleCount(5, count);
    CornersCount(Cut(5, count));
  }

  /** A strip: it starts with the first three vertices, and every triangle has the last two vertices
      of the one before and the next vertex. */
  lemma StripShape(count: nat)
    ensures var ts := Cut(6, count);
      && |ts| == (if count < 3 then 0 else count - 2)
      && (count >= 3 ==> ts[0] == (0, 1, 2) && ts[|ts| - 1].2 == count - 1)
      && forall k :: 0 <= k < |ts| - 1 ==>
        ts[k + 1].0 == ts[k].1 && ts[k + 1].1 == ts[k].2 && ts[k + 1].2 == ts[k].2 + 1
  {
    TriangleCount(6, count);
  }

  /** A fan or polygon: every triangle has the first vertex and two neighbours, and shares its last
      vertex with the next one. */
  lemma FanShape(primitive: nat, count: nat)
    requires primitive == 7 || primitive == 10
    ensures var ts := Cut(primitive, count);
      && |ts| == (if count < 3 then 0 else count - 2)
      && (count >= 3 ==> ts[0].1 == 1 && ts[|ts| - 1].2 == count - 1)
      && (forall k :: 0 <= k < |ts| ==> ts[k].0 == 0 && ts[k].2 == ts[k].1 + 1)
      && forall k :: 0 <= k < |ts| - 1 ==> ts[k + 1].1 == ts[k].2
  {
    TriangleCount(primitive, count);
  }

  /** Two triangles that cover a quadrilateral: `a`, `b`, `c`, `d` around it, cut from `a` to `c`. */
  ghost predicate Halves(t: Triangle, u: Triangle, a: nat, b: nat, c: nat, d: nat) {
    && t.0 == u.0 == a && t.1 == b && t.2 == u.1 == c && u.2 == d
  }

  /** Quads: every four vertices in order around one quadrilateral, those that are left over dropped. */
  lemma QuadShape(count: nat)
    ensures var ts := Cut(8, count);
      && |ts| == count / 4 * 2
      && forall q :: 0 <= q < count / 4 ==> Halves(ts[2 * q], ts[2 * q + 1], 4 * q, 4 * q + 1, 4 * q + 2, 4 * q + 3)
  {
    TriangleCount(8, count);
  }

  /** A quad strip: each pair of vertices makes a quadrilateral with the next pair, the second pair
      taken backwards, so that neighbours share an edge. */
  lemma QuadStripShape(count: nat)
    ensures var ts := Cut(9, count);
      && |ts| == (if count < 4 then 0 else (count / 2 - 1) * 2)
      && (forall q :: 0 <= q < count / 2 - 1 ==>
            Halves(ts[2 * q], ts[2 * q + 1], 2 * q, 2 * q + 1, 2 * q + 3, 2 * q + 2))
  {
    TriangleCount(9, count);
  }

  /** Quads are cut along a diagonal into triangles with no vertex twice and all four vertices. */
  lemma HalvesCover(t: Triangle, u: Triangle, a: nat, b: nat, c: nat, d: nat)
    requires Halves(t, u, a, b, c, d)
    ensures {t.0, t.1, t.2, u.0, u.1, u.2} == {a, b, c, d}
  {
  }
}
