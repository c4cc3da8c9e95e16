/** The conditions of draws and clears by register number, and the geometry of triangles
    (nv2a_capture.py: draw_unsupported_reason, surface_geometry, fill_triangle, execute_clear). */
module PixelLaws {
  import opened Numbers
  import opened Wrappers
  import opened Pgraph
  import opened PixelSurface
  import opened PixelDraw
  import Swizzle

  // ---- Texture stages and combiners ----

  /** `length` bits of a register from bit `start` on, as powers of two. */
  function Part(s: State, register: nat, start: nat, size: nat): nat
    requires start > 0 && size > 0
  {
    Register(s, register) / start % size
  }

  /** A stage is active with a format, bit 30 of its control register, and a mode: five bits for each
      stage in register 0x1E70. */
  lemma StageExactly(s: State, stage: nat)
    requires stage < 4
    ensures StageActive(s, stage) <==>
      && Register(s, 0x1B04 + 0x40 * stage) != 0 && Part(s, 0x1B0C + 0x40 * stage, 0x4000_0000, 2) == 1
      && Part(s, 0x1E70, [1, 0x20, 0x400, 0x8000][stage], 0x20) != 0
  {
  }

  /** The combiner set-ups that can be replayed: none, or one general combiner that passes the diffuse
      color, the texture, or their product. */
  lemma CombinersExactly(s: State, textured: bool)
    ensures KnownCombiner(s, textured) <==>
      || Register(s, 0x1E60) == 0
      || (Part(s, 0x1E60, 1, 0x100) == 1 && Register(s, 0xAA0) == 0xC00
          && (Register(s, 0xAC0), Register(s, 0x260), Register(s, 0x1E40)) in
            if textured then
              {(0x820_0000, 0x1820_0000, 0xC00), (0x804_0000, 0x1814_0000, 0xC00), (0x804_0000, 0x1814_0000, 0x1_0C00),
               (0x801_0000, 0x1814_0000, 0xC00)}
            else {(0x2004, 0x2014, 0xC00)})
    ensures FinalCombinerPlain(s) <==>
      || (Register(s, 0x288) == 0 && Register(s, 0x28C) == 0)
      || (Register(s, 0x288) == 0xC && Part(s, 0x28C, 0x100, 0x100) == 0x1C)
  {
    hide Register;
  }

  // ---- The first reason against a draw ----

  /** Everything that is checked of a draw before it is read, in order. */
  function Checks(s: State, c: Checkpoint, programReason: Option<string>): seq<(bool, Fault)> {
    var active := Register(s, 0x1B04) != 0 && Part(s, 0x1B0C, 0x4000_0000, 2) == 1 && Part(s, 0x1E70, 1, 0x20) != 0;
    [(s.program.mode == 2 && s.program.instructions != 0 && programReason.Some?,
      VertexProgram(if programReason.Some? then programReason.value else "")),
     (Register(s, 0x300) != 0, AlphaTest),
     (Register(s, 0x304) != 0, Blend),
     (Register(s, 0x32C) != 0, Stencil),
     (StageActive(s, 1) || StageActive(s, 2) || StageActive(s, 3), Multitexture),
     (active && Part(s, 0x1E70, 1, 0x20) != 1, TextureMode),
     (active && Swizzle.TextureFormatInfo(Part(s, 0x1B04, 0x100, 0x100)) == None, Texture(Swizzle.TextureFormat)),
     (!KnownCombiner(s, active) || !FinalCombinerPlain(s), Combiner),
     (c.count < 3, VertexCount),
     (!(5 <= c.primitive <= 10), Primitive)]
  }

  function FirstFailed(checks: seq<(bool, Fault)>): Option<Fault> {
    if checks == [] then None else if checks[0].0 then Some(checks[0].1) else FirstFailed(checks[1..])
  }

  lemma FirstOf(check: (bool, Fault), rest: seq<(bool, Fault)>)
    ensures FirstFailed([check] + rest) == if check.0 then Some(check.1) else FirstFailed(rest)
  {
    assert ([check] + rest)[1..] == rest;
  }

  lemma FirstOfThree(x: (bool, Fault), y: (bool, Fault), z: (bool, Fault), rest: seq<(bool, Fault)>)
    ensures FirstFailed([x, y, z] + rest) ==
      if x.0 then Some(x.1) else if y.0 then Some(y.1) else if z.0 then Some(z.1) else FirstFailed(rest)
  {
    hide FirstFailed;
    FirstOf(z, rest);
    FirstOf(y, [z] + rest);
    FirstOf(x, [y] + ([z] + rest));
    Three(x, y, z, rest);
  }

  lemma Three(x: (bool, Fault), y: (bool, Fault), z: (bool, Fault), rest: seq<(bool, Fault)>)
    ensures [x, y, z] + rest == [x] + ([y] + ([z] + rest))
  {
  }

  /** A batch that is no draw is refused as such, and a draw for the first check that fails. */
  lemma RefusedExactly(s: State, c: Checkpoint, programReason: Option<string>)
    ensures UnsupportedReason(s, c, programReason) ==
      if c.kind != DrawArrays && c.kind != IndexedBatch then Some(BatchReason(c.kind))
      else match FirstFailed(Checks(s, c, programReason))
        case Some(fault) => Some(DrawReason(c.kind, fault))
        case None => None
  {
    hide Register, KnownCombiner, FinalCombinerPlain, TriangleIndices, FirstFailed;
    TrianglesOfPrimitive(c.primitive, c.count);
    StageExactly(s, 0);
    var ks := Checks(s, c, programReason);
    NoneFailed();
    FirstOf(ks[9], []);
    FirstOfThree(ks[6], ks[7], ks[8], [ks[9]]);
    FirstOfThree(ks[3], ks[4], ks[5], [ks[6], ks[7], ks[8]] + [ks[9]]);
    FirstOfThree(ks[0], ks[1], ks[2], [ks[3], ks[4], ks[5]] + ([ks[6], ks[7], ks[8]] + [ks[9]]));
    assert ks == [ks[0], ks[1], ks[2]] + ([ks[3], ks[4], ks[5]] + ([ks[6], ks[7], ks[8]] + [ks[9]]));
    assert [ks[9]] == [ks[9]] + [];
  }

  lemma NoneFailed()
    ensures FirstFailed([]) == None
  {
  }

  /** The vertices of a draw: the indices sent, or as many as it says from the low 24 bits of its data
      on. */
  lemma IndicesExactly(c: Checkpoint)
    ensures c.kind == IndexedBatch ==> SourceIndices(c) == c.indices
    ensures c.kind != IndexedBatch ==>
      |SourceIndices(c)| == c.count && forall i :: 0 <= i < c.count ==> SourceIndices(c)[i] == c.data % 0x100_0000 + i
  {
  }

  /** What is checked once the vertices are read: the color surface at register 0x210 and, if 0x30C
      asks for the depth test, a depth format of 1 or 2, the depth surface at 0x214 and its content. */
  lemma SurfacesExactly(s: State, depthKnown: bool)
    ensures var depth := Register(s, 0x30C) != 0;
      var usable := Part(s, 0x208, 0x10, 0x10) in {1, 2} && Register(s, 0x214) != 0;
      && (SurfaceFault(s, depthKnown) == Some(ColorSurface) <==> Register(s, 0x210) == 0)
      && (SurfaceFault(s, depthKnown) == Some(DepthSurface) <==> Register(s, 0x210) != 0 && depth && !usable)
      && (SurfaceFault(s, depthKnown) == Some(DepthInput) <==>
            Register(s, 0x210) != 0 && depth && usable && !depthKnown)
      && (SurfaceFault(s, depthKnown) == None <==> Register(s, 0x210) != 0 && (depth ==> usable && depthKnown))
  {
    hide Register;
  }

  /** The faults in order: those of the pipeline, the sampler's, a vertex that cannot be read, the
      surfaces'. */
  lemma FaultsExactly(s: State, c: Checkpoint, inputs: Inputs)
    requires UnsupportedReason(s, c, inputs.programReason) == None
    ensures var textured := StageActive(s, 0);
      var unread := exists i :: 0 <= i < |SourceIndices(c)| && inputs.vertex(SourceIndices(c)[i]) == None;
      && (textured && inputs.sampler.1.Some? ==>
            DrawFault(s, c, inputs) == Some(DrawReason(c.kind, Texture(inputs.sampler.1.value))))
      && (!(textured && inputs.sampler.1.Some?) && unread ==>
            DrawFault(s, c, inputs) == Some(DrawReason(c.kind, VertexInput)))
      && (!(textured && inputs.sampler.1.Some?) && !unread ==>
            match SurfaceFault(s, inputs.depthKnown)
            case Some(fault) => DrawFault(s, c, inputs) == Some(DrawReason(c.kind, fault))
            case None => DrawFault(s, c, inputs) == None)
  {
    hide UnsupportedReason, StageActive, SurfaceFault, SourceIndices;
  }

  // ---- Surfaces and clears ----

  /** The surface: the low half of register 0x20C is the color pitch, 2560 if it is zero; a row has as
      many pixels as the two halves of 0x200 add up to, if they are some and fit the pitch, and
      otherwise as many as fit; there are as many rows as the two halves of 0x204 add up to, if they
      are 1 to 4096, and otherwise 480. */
  lemma GeometryExactly(s: State)
    ensures var g := SurfaceGeometry(s);
      var pitch := Part(s, 0x20C, 1, 0x1_0000);
      var across := Part(s, 0x200, 1, 0x1_0000) + Part(s, 0x200, 0x1_0000, 0x1_0000);
      var down := Part(s, 0x204, 1, 0x1_0000) + Part(s, 0x204, 0x1_0000, 0x1_0000);
      && g.pitch == (if pitch == 0 then 2560 else pitch)
      && (1 <= across && 4 * across <= g.pitch ==> g.width == across)
      && (across == 0 || 4 * across > g.pitch ==> 4 * g.width <= g.pitch < 4 * g.width + 4)
      && g.height == if 1 <= down <= 4096 then down else 480
  {
    hide Register;
  }

  /** Depth values: 4 bytes in format 2 and otherwise 2; the high half of register 0x20C is their
      pitch, a row of them if it is zero. Regions are as long as their rows, or longer if they were. */
  lemma DepthExactly(s: State, size: nat)
    ensures var g, l := SurfaceGeometry(s), DepthLayout(s, size);
      var pitch := Part(s, 0x20C, 0x1_0000, 0x1_0000);
      && l.bytes == (if Part(s, 0x208, 0x10, 0x10) == 2 then 4 else 2)
      && l.pitch == (if pitch == 0 then g.width * l.bytes else pitch)
      && l.length >= l.pitch * g.height && l.length >= size && l.length in {l.pitch * g.height, size}
    ensures var g, l := SurfaceGeometry(s), ColorLayout(s, size);
      && l.bytes == 4 && l.pitch == g.pitch
      && l.length >= l.pitch * g.height && l.length >= size && l.length in {l.pitch * g.height, size}
  {
    hide Register, SurfaceGeometry;
  }

  /** The clear rectangle: from the low to the high half of registers 0x1D98 across and 0x1D9C down,
      as far as it is on the surface. */
  lemma RectExactly(s: State, x: nat, y: nat)
    ensures var g := SurfaceGeometry(s);
      (ClearRect(s).Some? && InRect(ClearRect(s).value, x, y)) <==>
        && x < g.width && y < g.height
        && Part(s, 0x1D98, 1, 0x1_0000) <= x <= Part(s, 0x1D98, 0x1_0000, 0x1_0000)
        && Part(s, 0x1D9C, 1, 0x1_0000) <= y <= Part(s, 0x1D9C, 0x1_0000, 0x1_0000)
  {
    hide Register, SurfaceGeometry;
  }

  /** The flags of a clear: 0x10 red, 0x20 green, 0x40 blue, 0x80 alpha of colors stored blue first. */
  lemma ColorFlagsExactly(s: State, flags: Word)
    ensures ColorBytes(flags) ==
      [flags / 0x40 % 2 == 1, flags / 0x20 % 2 == 1, flags / 0x10 % 2 == 1, flags / 0x80 % 2 == 1]
    ensures ClearsColor(s, flags) <==>
      (exists k :: 0 <= k < 4 && ColorBytes(flags)[k]) && Register(s, 0x210) != 0
  {
    hide Register;
    var n := flags / 0x10;
    assert flags / 0x20 == n / 2 && flags / 0x40 == n / 4 && flags / 0x80 == n / 8;
    FourBits(n);
    var bits := ColorBytes(flags);
    assert (exists k :: 0 <= k < 4 && bits[k]) <==> bits[0] || bits[1] || bits[2] || bits[3];
  }

  lemma FourBits(n: nat)
    ensures n % 16 != 0 <==> n % 2 == 1 || n / 2 % 2 == 1 || n / 4 % 2 == 1 || n / 8 % 2 == 1
  {
    var q, r := n / 16, n % 16;
    assert n == 16 * q + r && n / 2 == 8 * q + r / 2 && n / 4 == 4 * q + r / 4 && n / 8 == 2 * q + r / 8;
    EvenPart(8 * q, r);
    EvenPart(4 * q, r / 2);
    EvenPart(2 * q, r / 4);
    EvenPart(q, r / 8);
    Nibble(r);
  }

  lemma EvenPart(q: nat, r: nat)
    ensures (2 * q + r) % 2 == r % 2
  {
    assert (2 * q + r) / 2 == q + r / 2;
  }

  lemma Nibble(r: nat)
    requires r < 16
    ensures r != 0 <==> r % 2 == 1 || r / 2 % 2 == 1 || r / 4 % 2 == 1 || r / 8 % 2 == 1
  {
  }

  /** Flag 1 clears the depth and 2 the stencil, which is the lowest byte of a 4-byte depth value;
      2-byte depth values are cleared whole. */
  lemma DepthFlagsExactly(s: State, flags: Word)
    ensures Part(s, 0x208, 0x10, 0x10) == 2 ==>
      var depth, stencil := flags % 2 == 1, flags / 2 % 2 == 1;
      DepthCleared(s, flags) == [stencil, depth, depth, depth]
    ensures Part(s, 0x208, 0x10, 0x10) == 1 ==> DepthCleared(s, flags) == if flags % 2 == 1 then [true, true] else []
    ensures Part(s, 0x208, 0x10, 0x10) !in {1, 2} ==> DepthCleared(s, flags) == []
    ensures ClearsDepth(s, flags) <==>
      flags % 4 != 0 && Register(s, 0x214) != 0 && DepthCleared(s, flags) != []
  {
    hide Register;
  }

  // ---- Triangles ----

  /** `p` and `q` are the coordinates of a point mixed from the vertices by these weights. */
  ghost predicate Mixed(a: Vertex, b: Vertex, c: Vertex, u: real, v: real, w: real, p: real, q: real) {
    && u + v + w == 1.0
    && p == u * a.x + v * b.x + w * c.x
    && q == u * a.y + v * b.y + w * c.y
  }

  lemma Distribute(x: real, y: real, z: real)
    ensures x * (y + z) == x * y + x * z && x * (y - z) == x * y - x * z && (y + z) * x == y * x + z * x
  {
  }

  /** The cross product with a mix of two vectors, one of them the other factor. */
  lemma CrossMix(u: real, w: real, rx: real, ry: real, sx: real, sy: real)
    ensures sx * (u * ry + w * sy) - sy * (u * rx + w * sx) == u * (sx * ry - sy * rx)
  {
    assert sx * (u * ry + w * sy) == u * (sx * ry) + w * (sx * sy);
    assert sy * (u * rx + w * sx) == u * (sy * rx) + w * (sx * sy);
    Distribute(u, sx * ry, sy * rx);
  }

  lemma CrossOf(a: Vertex, b: Vertex, c: Vertex)
    ensures (c.x - b.x) * (a.y - b.y) - (c.y - b.y) * (a.x - b.x) == Area(a, b, c)
  {
    var rx, ry, sx, sy := b.x - a.x, b.y - a.y, c.x - a.x, c.y - a.y;
    assert (sx - rx) * -ry - (sy - ry) * -rx == rx * sy - ry * sx;
  }

  /** The share of a vertex in a mixed point is its weight. */
  lemma ShareOfMix(a: Vertex, b: Vertex, c: Vertex, u: real, v: real, w: real, p: real, q: real)
    requires Mixed(a, b, c, u, v, w, p, q)
    ensures Share(b, c, p, q) == u * Area(a, b, c)
  {
    var rx, ry, sx, sy := a.x - b.x, a.y - b.y, c.x - b.x, c.y - b.y;
    MixFrom(a.x, b.x, c.x, u, v, w);
    MixFrom(a.y, b.y, c.y, u, v, w);
    assert p - b.x == u * rx + w * sx && q - b.y == u * ry + w * sy;
    CrossMix(u, w, rx, ry, sx, sy);
    CrossOf(a, b, c);
  }

  lemma MixFrom(x: real, y: real, z: real, u: real, v: real, w: real)
    requires u + v + w == 1.0
    ensures u * x + v * y + w * z - y == u * (x - y) + w * (z - y)
  {
    assert v == 1.0 - u - w;
    assert v * y == y - u * y - w * y;
  }

  lemma AreaTurns(a: Vertex, b: Vertex, c: Vertex)
    ensures Area(b, c, a) == Area(a, b, c)
  {
    CrossOf(a, b, c);
  }

  /** A point that is mixed from the vertices has its weights as shares of the area. */
  lemma MixShares(a: Vertex, b: Vertex, c: Vertex, u: real, v: real, w: real, p: real, q: real)
    requires Mixed(a, b, c, u, v, w, p, q)
    ensures Share(b, c, p, q) == u * Area(a, b, c)
    ensures Share(c, a, p, q) == v * Area(a, b, c)
    ensures Share(a, b, p, q) == w * Area(a, b, c)
  {
    hide Share, Area;
    ShareOfMix(a, b, c, u, v, w, p, q);
    assert Mixed(b, c, a, v, w, u, p, q);
    ShareOfMix(b, c, a, v, w, u, p, q);
    assert Mixed(c, a, b, w, u, v, p, q);
    ShareOfMix(c, a, b, w, u, v, p, q);
    AreaTurns(a, b, c);
    AreaTurns(b, c, a);
  }

  /** A mixed point is covered exactly when no weight is below -0.0001. */
  lemma CoversExactly(a: Vertex, b: Vertex, c: Vertex, u: real, v: real, w: real, x: nat, y: nat)
    requires Area(a, b, c) != 0.0 && Mixed(a, b, c, u, v, w, x as real + 0.5, y as real + 0.5)
    ensures Covers(a, b, c, x, y) <==> u >= -0.0001 && v >= -0.0001 && w >= -0.0001
  {
    hide Share, Area, Mixed;
    var area := Area(a, b, c);
    MixShares(a, b, c, u, v, w, x as real + 0.5, y as real + 0.5);
    Cancels(u, area);
    Cancels(v, area);
    Cancels(w, area);
  }

  lemma Cancels(u: real, area: real)
    requires area != 0.0
    ensures u * area * (1.0 / area) == u
  {
    assert area * (1.0 / area) == 1.0;
    assert u * area * (1.0 / area) == u * (area * (1.0 / area));
  }

  /** A pixel of the surface whose centre is in a triangle that is not skipped is touched. */
  lemma InsideTouched(a: Vertex, b: Vertex, c: Vertex, g: Geometry, u: real, v: real, w: real, x: nat, y: nat)
    requires OnSurface(a, b, c, g) && x < g.width && y < g.height
    requires Mixed(a, b, c, u, v, w, x as real + 0.5, y as real + 0.5) && u >= 0.0 && v >= 0.0 && w >= 0.0
    ensures Touches(a, b, c, g, x, y)
  {
    hide Share, Mixed, Covers, OnSurface, FirstPixel, LastPixel, LeastOf, GreatestOf, Area;
    AreaOf(a, b, c, g);
    CoversExactly(a, b, c, u, v, w, x, y);
    MixedParts(a, b, c, u, v, w, x as real + 0.5, y as real + 0.5);
    MixBounds(a.x, b.x, c.x, u, v, w, x as real + 0.5);
    MixBounds(a.y, b.y, c.y, u, v, w, y as real + 0.5);
    PixelInBox(LeastOf(a.x, b.x, c.x), GreatestOf(a.x, b.x, c.x), g.width, x);
    PixelInBox(LeastOf(a.y, b.y, c.y), GreatestOf(a.y, b.y, c.y), g.height, y);
  }

  lemma MixedParts(a: Vertex, b: Vertex, c: Vertex, u: real, v: real, w: real, p: real, q: real)
    requires Mixed(a, b, c, u, v, w, p, q)
    ensures u + v + w == 1.0 && p == u * a.x + v * b.x + w * c.x && q == u * a.y + v * b.y + w * c.y
  {
  }

  lemma AreaOf(a: Vertex, b: Vertex, c: Vertex, g: Geometry)
    requires OnSurface(a, b, c, g)
    ensures Area(a, b, c) != 0.0
  {
  }

  lemma MixBounds(x: real, y: real, z: real, u: real, v: real, w: real, p: real)
    requires u + v + w == 1.0 && u >= 0.0 && v >= 0.0 && w >= 0.0 && p == u * x + v * y + w * z
    ensures LeastOf(x, y, z) <= p <= GreatestOf(x, y, z)
  {
    MixBetween(x, y, z, u, v, w, LeastOf(x, y, z), GreatestOf(x, y, z));
  }

  function Times(x: real, y: real): real { x * y }

  lemma MixBetween(x: real, y: real, z: real, u: real, v: real, w: real, low: real, high: real)
    requires u + v + w == 1.0 && u >= 0.0 && v >= 0.0 && w >= 0.0
    requires low <= x <= high && low <= y <= high && low <= z <= high
    ensures low <= Times(u, x) + Times(v, y) + Times(w, z) <= high
  {
    hide Times;
    MixOf(u, v, w, low);
    MixOf(u, v, w, high);
    Scaled(u, low, x, high);
    Scaled(v, low, y, high);
    Scaled(w, low, z, high);
  }

  lemma MixOf(u: real, v: real, w: real, x: real)
    requires u + v + w == 1.0
    ensures Times(u, x) + Times(v, x) + Times(w, x) == x
  {
    assert (u + v + w) * x == u * x + v * x + w * x;
  }

  lemma Scaled(u: real, x: real, y: real, z: real)
    requires u >= 0.0 && x <= y <= z
    ensures Times(u, x) <= Times(u, y) <= Times(u, z)
  {
  }

  lemma PixelInBox(low: real, high: real, size: nat, x: nat)
    requires low <= x as real + 0.5 <= high && x < size
    ensures FirstPixel(low) <= x <= LastPixel(high, size)
  {
  }

  /** The pixels touched of a triangle that is not skipped are those of the surface, in the box around
      it, that are covered. */
  lemma TouchesExactly(a: Vertex, b: Vertex, c: Vertex, g: Geometry, x: nat, y: nat)
    requires OnSurface(a, b, c, g)
    ensures Area(a, b, c) != 0.0
    ensures Touches(a, b, c, g, x, y) <==>
      && x < g.width && y < g.height && Covers(a, b, c, x, y)
      && (a.x < x as real + 1.0 || b.x < x as real + 1.0 || c.x < x as real + 1.0)
      && (a.x >= x as real || b.x >= x as real || c.x >= x as real)
      && (a.y < y as real + 1.0 || b.y < y as real + 1.0 || c.y < y as real + 1.0)
      && (a.y >= y as real || b.y >= y as real || c.y >= y as real)
  {
    hide Covers, OnSurface, FirstPixel, LastPixel, LeastOf, GreatestOf, Area;
    AreaOf(a, b, c, g);
    BoxExactly(a.x, b.x, c.x, g.width, x);
    BoxExactly(a.y, b.y, c.y, g.height, y);
  }

  lemma BoxExactly(p: real, q: real, r: real, size: nat, x: nat)
    ensures FirstPixel(LeastOf(p, q, r)) <= x <= LastPixel(GreatestOf(p, q, r), size) <==>
      && x < size && (p < x as real + 1.0 || q < x as real + 1.0 || r < x as real + 1.0)
      && (p >= x as real || q >= x as real || r >= x as real)
  {
  }

  /** A triangle is skipped when a vertex is not in front, when its area is next to nothing, or when
      all of it is on one side of the surface. */
  lemma SkippedExactly(a: Vertex, b: Vertex, c: Vertex, g: Geometry)
    ensures OnSurface(a, b, c, g) <==>
      && a.w > 0.00001 && b.w > 0.00001 && c.w > 0.00001
      && (Area(a, b, c) >= 0.001 || Area(a, b, c) <= -0.001)
      && (a.x >= 0.0 || b.x >= 0.0 || c.x >= 0.0) && (a.y >= 0.0 || b.y >= 0.0 || c.y >= 0.0)
      && (a.x < g.width as real || b.x < g.width as real || c.x < g.width as real)
      && (a.y < g.height as real || b.y < g.height as real || c.y < g.height as real)
  {
    hide Area;
  }

  /** Twice the area of a triangle with a corner at the origin and sides along the axes. */
  lemma AreaExactly(a: Vertex, width: real, height: real, w: real)
    ensures Area(a, Vertex(a.x + width, a.y, w), Vertex(a.x, a.y + height, w)) == width * height
  {
  }
}
