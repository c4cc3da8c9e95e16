/** The extent of the color and depth surfaces, the pixels a triangle touches and the accesses a
    draw or a clear makes to its regions (nv2a_capture.py: surface_geometry, write_fragment,
    fill_triangle, clear_masked, execute_clear). An access outside its region raises. */
module PixelSurface {
  import opened Numbers
  import opened Wrappers
  import opened Pgraph

  const SURFACE_CLIP_HORIZONTAL: nat := 0x0200
  const SURFACE_CLIP_VERTICAL: nat := 0x0204
  const SURFACE_FORMAT: nat := 0x0208
  const SURFACE_PITCH: nat := 0x020C
  const SURFACE_COLOR_OFFSET: nat := 0x0210
  const SURFACE_ZETA_OFFSET: nat := 0x0214
  const DEPTH_TEST: nat := 0x030C
  const CLEAR_RECT_HORIZONTAL: nat := 0x1D98
  const CLEAR_RECT_VERTICAL: nat := 0x1D9C

  function Register(s: State, m: nat): Word {
    if m / 4 < |s.registers| then s.registers[m / 4] else 0
  }

  // ---- Geometry ----

  /** A surface: bytes in a row, pixels in a row, rows. */
  datatype Geometry = Geometry(pitch: nat, width: nat, height: nat)

  function SurfaceGeometry(s: State): Geometry {
    var low := Register(s, SURFACE_PITCH) % 0x1_0000;
    var pitch := if low == 0 then 640 * 4 else low;
    var horizontal, vertical := Register(s, SURFACE_CLIP_HORIZONTAL), Register(s, SURFACE_CLIP_VERTICAL);
    var width := horizontal % 0x1_0000 + horizontal / 0x1_0000;
    var height := vertical % 0x1_0000 + vertical / 0x1_0000;
    Geometry(pitch, if width == 0 || width > pitch / 4 then pitch / 4 else width,
             if height == 0 || height > 4096 then 480 else height)
  }

  /** A row of color pixels fits its pitch, and there is a row. */
  lemma GeometryFits(s: State)
    ensures var g := SurfaceGeometry(s);
      g.width * 4 <= g.pitch && 0 < g.pitch < 0x1_0000 && 0 < g.height <= 4096
  {
    hide Register;
  }

  function ZetaFormat(s: State): nat { Register(s, SURFACE_FORMAT) / 0x10 % 0x10 }

  /** Bytes of a depth value. */
  function DepthBytes(s: State): nat { if ZetaFormat(s) == 2 then 4 else 2 }

  function DepthPitch(s: State): nat {
    var high := Register(s, SURFACE_PITCH) / 0x1_0000;
    if high == 0 then SurfaceGeometry(s).width * DepthBytes(s) else high
  }

  /** A row of depth values fits the depth pitch. */
  predicate DepthRowFits(s: State) {
    SurfaceGeometry(s).width * DepthBytes(s) <= DepthPitch(s)
  }

  // ---- Accesses ----

  /** Rows of pixels in a region: bytes in a pixel and in a row, and the length of the region. */
  datatype Layout = Layout(bytes: nat, pitch: nat, length: nat)

  /** The bytes of a pixel are inside its region. */
  predicate PixelInside(l: Layout, x: nat, y: nat) {
    y * l.pitch + x * l.bytes + l.bytes <= l.length
  }

  /** The color region of a draw; `size` is what the region had before. */
  function ColorLayout(s: State, size: nat): Layout {
    var g := SurfaceGeometry(s);
    Layout(4, g.pitch, Max(size, g.pitch * g.height))
  }

  function DepthLayout(s: State, size: nat): Layout {
    Layout(DepthBytes(s), DepthPitch(s), Max(size, DepthPitch(s) * SurfaceGeometry(s).height))
  }

  lemma LastRow(y: nat, height: nat, pitch: nat)
    requires y < height
    ensures y * pitch + pitch <= pitch * height
  {
    assert (y + 1) * pitch <= height * pitch;
  }

  lemma RowInside(l: Layout, width: nat, height: nat, x: nat, y: nat)
    requires x < width && y < height && width * l.bytes <= l.pitch && l.pitch * height <= l.length
    ensures PixelInside(l, x, y)
  {
    LastRow(y, height, l.pitch);
    LastRow(x, width, l.bytes);
  }

  lemma CornerOutside(l: Layout, width: nat, height: nat)
    requires width > 0 && height > 0 && width * l.bytes > l.pitch && l.length == l.pitch * height
    ensures !PixelInside(l, width - 1, height - 1)
  {
    assert (height - 1) * l.pitch == height * l.pitch - l.pitch;
    assert (width - 1) * l.bytes == width * l.bytes - l.bytes;
  }

  /** Every color access of a pixel of the surface is inside the color region, always. */
  lemma ColorInside(s: State, size: nat, x: nat, y: nat)
    requires x < SurfaceGeometry(s).width && y < SurfaceGeometry(s).height
    ensures PixelInside(ColorLayout(s, size), x, y)
  {
    hide SurfaceGeometry, PixelInside;
    GeometryFits(s);
    RowInside(ColorLayout(s, size), SurfaceGeometry(s).width, SurfaceGeometry(s).height, x, y);
  }

  /** Every depth access of a pixel of the surface is inside a depth region of exactly its size if
      and only if a row of depth values fits the depth pitch. */
  lemma DepthInsideExactly(s: State)
    ensures (forall x: nat, y: nat :: x < SurfaceGeometry(s).width && y < SurfaceGeometry(s).height ==>
        PixelInside(DepthLayout(s, 0), x, y)) <==> DepthRowFits(s)
  {
    hide SurfaceGeometry, PixelInside, DepthPitch, DepthBytes;
    GeometryFits(s);
    var g, l := SurfaceGeometry(s), DepthLayout(s, 0);
    NothingBelow(l.pitch, g.height);
    if DepthRowFits(s) {
      forall x: nat, y: nat | x < g.width && y < g.height ensures PixelInside(l, x, y) {
        RowInside(l, g.width, g.height, x, y);
      }
    } else if g.width > 0 {
      CornerOutside(l, g.width, g.height);
    }
  }

  lemma NothingBelow(pitch: nat, height: nat)
    ensures Max(0, pitch * height) == pitch * height
  {
  }

  // ---- Triangles ----

  /** What of a vertex decides which pixels are touched. */
  datatype Vertex = Vertex(x: real, y: real, w: real)

  function LeastOf(a: real, b: real, c: real): real {
    if a <= b && a <= c then a else if b <= c then b else c
  }

  function GreatestOf(a: real, b: real, c: real): real {
    if a >= b && a >= c then a else if b >= c then b else c
  }

  function Area(a: Vertex, b: Vertex, c: Vertex): real {
    (b.x - a.x) * (c.y - a.y) - (b.y - a.y) * (c.x - a.x)
  }

  /** A triangle that is not skipped: in front, with an area, and partly on the surface. */
  predicate OnSurface(a: Vertex, b: Vertex, c: Vertex, g: Geometry) {
    && LeastOf(a.w, b.w, c.w) > 0.00001 && !(-0.001 < Area(a, b, c) < 0.001)
    && GreatestOf(a.x, b.x, c.x) >= 0.0 && GreatestOf(a.y, b.y, c.y) >= 0.0
    && LeastOf(a.x, b.x, c.x) < g.width as real && LeastOf(a.y, b.y, c.y) < g.height as real
  }

  /** The first pixel from `low` on, and the last up to `high`, of `size` pixels. */
  function FirstPixel(low: real): nat {
    if low <= 0.0 then 0 else low.Floor
  }

  function LastPixel(high: real, size: nat): int {
    var last := size as real - 1.0;
    if last <= high then last.Floor else high.Floor
  }

  /** The share of vertex `a` in a point, times the area. */
  function Share(b: Vertex, c: Vertex, x: real, y: real): real {
    (c.x - b.x) * (y - b.y) - (c.y - b.y) * (x - b.x)
  }

  predicate Covers(a: Vertex, b: Vertex, c: Vertex, x: nat, y: nat)
    requires Area(a, b, c) != 0.0
  {
    var px, py, inverse := x as real + 0.5, y as real + 0.5, 1.0 / Area(a, b, c);
    && Share(b, c, px, py) * inverse >= -0.0001
    && Share(c, a, px, py) * inverse >= -0.0001
    && Share(a, b, px, py) * inverse >= -0.0001
  }

  /** The triangle writes a fragment at a pixel. */
  predicate Touches(a: Vertex, b: Vertex, c: Vertex, g: Geometry, x: nat, y: nat) {
    && OnSurface(a, b, c, g)
    && FirstPixel(LeastOf(a.x, b.x, c.x)) <= x <= LastPixel(GreatestOf(a.x, b.x, c.x), g.width)
    && FirstPixel(LeastOf(a.y, b.y, c.y)) <= y <= LastPixel(GreatestOf(a.y, b.y, c.y), g.height)
    && Covers(a, b, c, x, y)
  }

  /** Every pixel touched is a pixel of the surface. */
  lemma TouchedInside(a: Vertex, b: Vertex, c: Vertex, g: Geometry, x: nat, y: nat)
    requires Touches(a, b, c, g, x, y)
    ensures x < g.width && y < g.height
  {
    hide OnSurface, Covers;
  }

  /** All depth accesses of a triangle are inside the depth region. */
  ghost predicate TriangleFits(a: Vertex, b: Vertex, c: Vertex, g: Geometry, depth: Layout) {
    forall x: nat, y: nat :: Touches(a, b, c, g, x, y) ==> PixelInside(depth, x, y)
  }

  /** One fragment: the depth access, if depth is tested, and the color access. */
  method WriteFragment(depth: Option<Layout>, color: Layout, x: nat, y: nat, passes: bool) returns (ok: bool)
    ensures ok <==>
      && (depth.Some? ==> PixelInside(depth.value, x, y))
      && (PixelInside(color, x, y) || (depth.Some? && !passes))
  {
    if depth.Some? {
      if !PixelInside(depth.value, x, y) {
        return false;
      }
      if !passes {
        return true;
      }
    }
    ok := PixelInside(color, x, y);
  }

  /** The fragments of a triangle in the order of the scan, up to the first access outside its region. */
  method FillTriangle(a: Vertex, b: Vertex, c: Vertex, s: State, depth: Option<Layout>, colorSize: nat,
                      passes: (nat, nat) -> bool) returns (ok: bool)
    ensures ok <==> (depth.Some? ==> TriangleFits(a, b, c, SurfaceGeometry(s), depth.value))
  {
    hide SurfaceGeometry, Covers, PixelInside, LastPixel, FirstPixel, LeastOf, GreatestOf, Area, ColorLayout;
    var g, color := SurfaceGeometry(s), ColorLayout(s, colorSize);
    if !OnSurface(a, b, c, g) {
      return true;
    }
    var firstX, lastX := FirstPixel(LeastOf(a.x, b.x, c.x)), LastPixel(GreatestOf(a.x, b.x, c.x), g.width);
    var y, lastY := FirstPixel(LeastOf(a.y, b.y, c.y)), LastPixel(GreatestOf(a.y, b.y, c.y), g.height);
    while y <= lastY
      invariant depth.Some? ==>
        forall i: nat, j: nat :: j < y && Touches(a, b, c, g, i, j) ==> PixelInside(depth.value, i, j)
    {
      var x := firstX;
      while x <= lastX
        invariant depth.Some? ==>
          forall i: nat, j: nat :: (j < y || (j == y && i < x)) && Touches(a, b, c, g, i, j) ==>
            PixelInside(depth.value, i, j)
      {
        if Covers(a, b, c, x, y) {
          assert Touches(a, b, c, g, x, y);
          TouchedInside(a, b, c, g, x, y);
          ColorInside(s, colorSize, x, y);
          var written := WriteFragment(depth, color, x, y, passes(x, y));
          if !written {
            return false;
          }
        }
        x := x + 1;
      }
      y := y + 1;
    }
    return true;
  }

  /** With rows that fit the depth pitch, no triangle leaves the depth region. */
  lemma WideFits(a: Vertex, b: Vertex, c: Vertex, s: State, size: nat)
    requires DepthRowFits(s)
    ensures TriangleFits(a, b, c, SurfaceGeometry(s), DepthLayout(s, size))
  {
    hide SurfaceGeometry, PixelInside, DepthPitch, DepthBytes, Touches;
    var g := SurfaceGeometry(s);
    forall x: nat, y: nat | Touches(a, b, c, g, x, y) ensures PixelInside(DepthLayout(s, size), x, y) {
      TouchedInside(a, b, c, g, x, y);
      RowInside(DepthLayout(s, size), g.width, g.height, x, y);
    }
  }

  /** A right triangle over the whole surface. */
  function Cover(g: Geometry): (Vertex, Vertex, Vertex) {
    var leg := 2.0 * (g.width as real + g.height as real);
    (Vertex(0.0, 0.0, 1.0), Vertex(leg, 0.0, 1.0), Vertex(0.0, leg, 1.0))
  }

  lemma CoverShares(leg: real, x: real, y: real)
    requires leg > 0.0 && x >= 0.0 && y >= 0.0 && x + y <= leg
    ensures var (a, b, c) := (Vertex(0.0, 0.0, 1.0), Vertex(leg, 0.0, 1.0), Vertex(0.0, leg, 1.0));
      && Area(a, b, c) == leg * leg > 0.0
      && Share(b, c, x, y) >= 0.0 && Share(c, a, x, y) >= 0.0 && Share(a, b, x, y) >= 0.0
  {
    var b, c := Vertex(leg, 0.0, 1.0), Vertex(0.0, leg, 1.0);
    assert Share(b, c, x, y) == leg * (leg - x - y);
  }

  lemma Nonnegative(share: real, area: real)
    requires share >= 0.0 && area > 0.0
    ensures share * (1.0 / area) >= 0.0
  {
    assert 1.0 / area > 0.0;
  }

  lemma CoverTouches(g: Geometry, x: nat, y: nat)
    requires x < g.width && y < g.height
    ensures Touches(Cover(g).0, Cover(g).1, Cover(g).2, g, x, y)
  {
    hide OnSurface, FirstPixel, LastPixel, LeastOf, GreatestOf, Area, Share, Cover;
    var (a, b, c) := Cover(g);
    CoverOnSurface(g, 2.0 * (g.width as real + g.height as real));
    CoverCovers(g, x, y);
  }

  lemma CoverCovers(g: Geometry, x: nat, y: nat)
    requires x < g.width && y < g.height
    ensures var (a, b, c) := Cover(g); Area(a, b, c) != 0.0 && Covers(a, b, c, x, y)
  {
    hide Area, Share;
    var (a, b, c) := Cover(g);
    var leg := 2.0 * (g.width as real + g.height as real);
    var px, py, area := x as real + 0.5, y as real + 0.5, Area(a, b, c);
    CoverShares(leg, px, py);
    Nonnegative(Share(b, c, px, py), area);
    Nonnegative(Share(c, a, px, py), area);
    Nonnegative(Share(a, b, px, py), area);
  }

  lemma CoverOnSurface(g: Geometry, leg: real)
    requires g.width > 0 && g.height > 0 && leg == 2.0 * (g.width as real + g.height as real)
    ensures var (a, b, c) := Cover(g); OnSurface(a, b, c, g)
    ensures var (a, b, c) := Cover(g);
      && FirstPixel(LeastOf(a.x, b.x, c.x)) == 0 && FirstPixel(LeastOf(a.y, b.y, c.y)) == 0
      && LastPixel(GreatestOf(a.x, b.x, c.x), g.width) == g.width - 1
      && LastPixel(GreatestOf(a.y, b.y, c.y), g.height) == g.height - 1
  {
    CoverShares(leg, 0.0, 0.0);
    assert leg * leg >= leg;
  }

  /** No triangle at all leaves a depth region of exactly its size if and only if a row of depth
      values fits the depth pitch. */
  lemma TrianglesFitExactly(s: State)
    ensures (forall a, b, c :: TriangleFits(a, b, c, SurfaceGeometry(s), DepthLayout(s, 0))) <==> DepthRowFits(s)
  {
    hide SurfaceGeometry, PixelInside, DepthPitch, DepthBytes, Touches, Cover;
    GeometryFits(s);
    var g, l := SurfaceGeometry(s), DepthLayout(s, 0);
    if DepthRowFits(s) {
      forall a, b, c ensures TriangleFits(a, b, c, g, l) {
        WideFits(a, b, c, s, 0);
      }
    } else {
      CoverLeaves(s);
    }
  }

  /** With rows that do not fit, a triangle over the whole surface leaves the region. */
  lemma CoverLeaves(s: State)
    requires !DepthRowFits(s)
    ensures var g := SurfaceGeometry(s);
      !TriangleFits(Cover(g).0, Cover(g).1, Cover(g).2, g, DepthLayout(s, 0))
  {
    hide SurfaceGeometry, PixelInside, DepthPitch, DepthBytes, Touches, Cover;
    GeometryFits(s);
    var g, l := SurfaceGeometry(s), DepthLayout(s, 0);
    NothingBelow(l.pitch, g.height);
    CornerOutside(l, g.width, g.height);
    CoverTouches(g, g.width - 1, g.height - 1);
  }

  // ---- Clears ----

  /** The pixels of a clear, both ends included. */
  datatype Rect = Rect(minX: nat, maxX: nat, minY: nat, maxY: nat)

  /** The rectangle to clear on the surface, if any of it is. */
  function ClearRect(s: State): Option<Rect> {
    var g := SurfaceGeometry(s);
    var horizontal, vertical := Register(s, CLEAR_RECT_HORIZONTAL), Register(s, CLEAR_RECT_VERTICAL);
    var r := Rect(horizontal % 0x1_0000, horizontal / 0x1_0000, vertical % 0x1_0000, vertical / 0x1_0000);
    if r.minX >= g.width || r.minY >= g.height || r.maxX < r.minX || r.maxY < r.minY then None
    else Some(Rect(r.minX, Min(r.maxX, g.width - 1), r.minY, Min(r.maxY, g.height - 1)))
  }

  predicate Flag(flags: Word, bit: nat)
    requires bit > 0
  {
    flags / bit % 2 == 1
  }

  /** Which bytes of a color pixel are cleared. */
  function ColorBytes(flags: Word): seq<bool> {
    [Flag(flags, 0x40), Flag(flags, 0x20), Flag(flags, 0x10), Flag(flags, 0x80)]
  }

  /** Which bytes of a depth value are cleared: the lowest is the stencil. */
  function DepthCleared(s: State, flags: Word): seq<bool> {
    if ZetaFormat(s) == 2 then [Flag(flags, 2), Flag(flags, 1), Flag(flags, 1), Flag(flags, 1)]
    else if ZetaFormat(s) == 1 && Flag(flags, 1) then [true, true]
    else []
  }

  predicate ClearsColor(s: State, flags: Word) {
    flags / 0x10 % 0x10 != 0 && Register(s, SURFACE_COLOR_OFFSET) != 0
  }

  predicate ClearsDepth(s: State, flags: Word) {
    flags % 4 != 0 && Register(s, SURFACE_ZETA_OFFSET) != 0 && DepthCleared(s, flags) != []
  }

  /** Byte `k` of a pixel is inside its region. */
  predicate ByteInside(l: Layout, x: nat, y: nat, k: nat) {
    y * l.pitch + x * l.bytes + k < l.length
  }

  predicate InRect(r: Rect, x: nat, y: nat) {
    r.minX <= x <= r.maxX && r.minY <= y <= r.maxY
  }

  /** Every byte a clear writes is inside its region. */
  ghost predicate ClearInside(l: Layout, r: Rect, bytes: seq<bool>) {
    forall x: nat, y: nat, k: nat :: InRect(r, x, y) && k < |bytes| && bytes[k] ==> ByteInside(l, x, y, k)
  }

  /** The items of a slice by `step` from `begin` to `end` of a buffer of `length` items. */
  function SliceSize(length: nat, begin: nat, end: nat, step: nat): nat
    requires step > 0
  {
    var stop := Min(end, length);
    if begin < stop then (stop - begin - 1) / step + 1 else 0
  }

  /** Assigning to a slice by steps raises unless it has as many items as are assigned. */
  lemma SliceHolds(length: nat, begin: nat, count: nat, step: nat)
    requires 2 <= step <= 4 && count > 0
    ensures SliceSize(length, begin, begin + count * step, step) == count <==> begin + (count - 1) * step < length
  {
    var end := begin + count * step;
    assert end == begin + (count - 1) * step + step;
    var stop := Min(end, length);
    if begin < stop {
      var d := stop - begin - 1;
      assert step * (count - 1) == count * step - step;
      match step {
        case 2 => assert d / 2 + 1 == count <==> d >= 2 * (count - 1);
        case 3 => assert d / 3 + 1 == count <==> d >= 3 * (count - 1);
        case _ => assert d / 4 + 1 == count <==> d >= 4 * (count - 1);
      }
    }
  }

  /** The last byte of a row reaches furthest. */
  lemma RowFurthest(l: Layout, r: Rect, y: nat, k: nat)
    requires r.minX <= r.maxX && r.minY <= y <= r.maxY
    ensures ByteInside(l, r.maxX, y, k) <==> forall x: nat :: InRect(r, x, y) ==> ByteInside(l, x, y, k)
  {
    assert InRect(r, r.maxX, y);
    forall x: nat | InRect(r, x, y) && ByteInside(l, r.maxX, y, k) ensures ByteInside(l, x, y, k) {
      assert x * l.bytes <= r.maxX * l.bytes;
    }
  }

  /** One byte of every pixel of a row, as one assignment to a slice. */
  method ClearRow(l: Layout, r: Rect, y: nat, k: nat) returns (ok: bool)
    requires r.minX <= r.maxX && r.minY <= y <= r.maxY && 2 <= l.bytes <= 4
    ensures ok <==> forall x: nat :: InRect(r, x, y) ==> ByteInside(l, x, y, k)
  {
    hide SliceSize, ByteInside, InRect;
    var pixelCount := r.maxX - r.minX + 1;
    var begin := y * l.pitch + r.minX * l.bytes + k;
    var end := begin + pixelCount * l.bytes;
    RowFurthest(l, r, y, k);
    SliceHolds(l.length, begin, pixelCount, l.bytes);
    LastOfRow(l, r, y, k);
    ok := SliceSize(l.length, begin, end, l.bytes) == pixelCount;
  }

  /** Where the last byte of a row is, counted from the first. */
  lemma LastOfRow(l: Layout, r: Rect, y: nat, k: nat)
    requires r.minX <= r.maxX
    ensures ByteInside(l, r.maxX, y, k) <==>
      y * l.pitch + r.minX * l.bytes + k + (r.maxX - r.minX + 1 - 1) * l.bytes < l.length
  {
    StepsAdd(r.minX, r.maxX - r.minX, l.bytes);
  }

  lemma StepsAdd(m: nat, n: nat, step: nat)
    ensures m * step + n * step == (m + n) * step
  {
  }

  method ClearMasked(l: Layout, r: Rect, bytes: seq<bool>) returns (ok: bool)
    requires r.minX <= r.maxX && |bytes| == l.bytes && 2 <= l.bytes <= 4
    ensures ok <==> ClearInside(l, r, bytes)
  {
    hide ByteInside;
    var y := r.minY;
    while y <= r.maxY
      invariant forall i: nat, j: nat, k: nat :: j < y && InRect(r, i, j) && k < |bytes| && bytes[k] ==>
        ByteInside(l, i, j, k)
    {
      for component := 0 to |bytes|
        invariant forall i: nat, j: nat, k: nat ::
          (j < y || (j == y && k < component)) && InRect(r, i, j) && k < |bytes| && bytes[k] ==> ByteInside(l, i, j, k)
      {
        if bytes[component] {
          var row := ClearRow(l, r, y, component);
          if !row {
            return false;
          }
        }
      }
      y := y + 1;
    }
    return true;
  }

  /** A clear raises when a byte it writes is outside the depth region. */
  ghost predicate ClearRaises(s: State, flags: Word, depthSize: nat) {
    && ClearRect(s).Some? && ClearsDepth(s, flags)
    && !ClearInside(DepthLayout(s, depthSize), ClearRect(s).value, DepthCleared(s, flags))
  }

  lemma RectInside(s: State)
    requires ClearRect(s).Some?
    ensures var g, r := SurfaceGeometry(s), ClearRect(s).value;
      r.minX <= r.maxX < g.width && r.minY <= r.maxY < g.height
  {
    hide SurfaceGeometry, Register;
  }

  /** A clear inside rows that fit their pitch stays in its region. */
  lemma ClearFits(l: Layout, g: Geometry, r: Rect, bytes: seq<bool>)
    requires r.maxX < g.width && r.maxY < g.height && |bytes| <= l.bytes
    requires g.width * l.bytes <= l.pitch && l.pitch * g.height <= l.length
    ensures ClearInside(l, r, bytes)
  {
    forall x: nat, y: nat, k: nat | InRect(r, x, y) && k < |bytes| && bytes[k] ensures ByteInside(l, x, y, k) {
      RowInside(l, g.width, g.height, x, y);
    }
  }

  /** Color before depth; a clear that does not raise is counted unless its rectangle is empty. */
  method ExecuteClear(s: State, flags: Word, colorSize: nat, depthSize: nat) returns (ok: bool, counted: bool)
    ensures ok <==> !ClearRaises(s, flags, depthSize)
    ensures counted <==> ok && ClearRect(s).Some?
  {
    hide SurfaceGeometry, Register, Flag, ClearRect, DepthPitch;
    var rect := ClearRect(s);
    if rect == None {
      return true, false;
    }
    RectInside(s);
    GeometryFits(s);
    if ClearsColor(s, flags) {
      ClearFits(ColorLayout(s, colorSize), SurfaceGeometry(s), rect.value, ColorBytes(flags));
      var color := ClearMasked(ColorLayout(s, colorSize), rect.value, ColorBytes(flags));
      assert color;
    }
    if ClearsDepth(s, flags) {
      ok := ClearMasked(DepthLayout(s, depthSize), rect.value, DepthCleared(s, flags));
      if !ok {
        return false, false;
      }
    }
    return true, true;
  }

  /** With rows that fit the depth pitch, no clear raises. */
  lemma WideClears(s: State, flags: Word, depthSize: nat)
    requires DepthRowFits(s)
    ensures !ClearRaises(s, flags, depthSize)
  {
    hide SurfaceGeometry, Register, Flag, ClearRect, DepthPitch;
    if ClearRect(s).Some? && ClearsDepth(s, flags) {
      RectInside(s);
      ClearFits(DepthLayout(s, depthSize), SurfaceGeometry(s), ClearRect(s).value, DepthCleared(s, flags));
    }
  }

  /** A clear of the depth of the whole surface, in a region of exactly its size, raises if and only
      if a row of depth values does not fit the depth pitch. */
  lemma WholeClearRaisesExactly(s: State, flags: Word)
    requires Flag(flags, 1) && ClearsDepth(s, flags)
    requires var g := SurfaceGeometry(s); g.width > 0 && ClearRect(s) == Some(Rect(0, g.width - 1, 0, g.height - 1))
    ensures ClearRaises(s, flags, 0) <==> !DepthRowFits(s)
  {
    hide SurfaceGeometry, Register, Flag, ClearRect, DepthPitch;
    GeometryFits(s);
    if DepthRowFits(s) {
      WideClears(s, flags, 0);
    } else {
      var g, l, bytes := SurfaceGeometry(s), DepthLayout(s, 0), DepthCleared(s, flags);
      NothingBelow(l.pitch, g.height);
      CornerOutside(l, g.width, g.height);
      assert InRect(ClearRect(s).value, g.width - 1, g.height - 1) && bytes[l.bytes - 1];
      assert !ByteInside(l, g.width - 1, g.height - 1, l.bytes - 1);
    }
  }

  // ---- Presents ----

  /** The rows a present copies from a surface stay inside both regions, so that no copy changes the
      length of either. */
  lemma PresentInside(s: State, displayPitch: nat, y: nat)
    requires y < Min(SurfaceGeometry(s).height, 480)
    ensures var g := SurfaceGeometry(s);
      var width, height := Min(g.width, displayPitch / 4), Min(g.height, 480);
      && y * g.pitch + width * 4 <= g.pitch * height
      && y * displayPitch + width * 4 <= displayPitch * 480
  {
    hide SurfaceGeometry;
    GeometryFits(s);
    var g := SurfaceGeometry(s);
    LastRow(y, Min(g.height, 480), g.pitch);
    LastRow(y, 480, displayPitch);
  }
}
