/** What decides whether a captured draw can be executed, the triangles it is made of, and whether
    one of them raises (nv2a_capture.py: draw_unsupported_reason, triangle_indices, the exits of
    execute_draw). */
module PixelDraw {
  import opened Wrappers
  import opened Pgraph
  import opened PixelSurface
  import Swizzle

  const ALPHA_TEST: nat := 0x0300
  const BLEND: nat := 0x0304
  const STENCIL_TEST: nat := 0x032C
  const TEXTURE_STAGES: nat := 0x1B00
  const COMBINER_CONTROL: nat := 0x1E60
  const SHADER_STAGE_PROGRAM: nat := 0x1E70

  /** Why a draw is not executed. */
  datatype Fault =
    | VertexProgram(name: string)
    | AlphaTest
    | Blend
    | Stencil
    | Multitexture
    | TextureMode
    | Texture(fault: Swizzle.TextureFault)
    | Combiner
    | VertexCount
    | Primitive
    | VertexInput
    | ColorSurface
    | DepthSurface
    | DepthInput

  /** The key a draw or batch that is not executed is counted under. */
  datatype Reason = BatchReason(kind: Kind) | DrawReason(kind: Kind, fault: Fault)

  /** What a draw finds that is not in the PGRAPH state: the verdict on its vertex program, the
      sampler, the vertices that can be read, whether its depth surface is known, the lengths the
      color and depth regions already have, and the depth test at each pixel. */
  datatype Inputs = Inputs(programReason: Option<string>, sampler: Swizzle.SamplerResult,
                           vertex: nat -> Option<Vertex>, depthKnown: bool, colorSize: nat, depthSize: nat,
                           passes: (nat, nat) -> bool)

  // ---- Texture stages ----

  function StageMode(s: State, stage: nat): nat {
    var modes := Register(s, SHADER_STAGE_PROGRAM);
    (if stage == 0 then modes else if stage == 1 then modes / 0x20 else if stage == 2 then modes / 0x400
     else modes / 0x8000) % 0x20
  }

  predicate StageActive(s: State, stage: nat) {
    var base := TEXTURE_STAGES + stage * 0x40;
    Register(s, base + 4) != 0 && Register(s, base + 12) / 0x4000_0000 % 2 == 1 && StageMode(s, stage) != 0
  }

  /** Some stage other than the first is active. */
  predicate OtherStageActive(s: State) {
    StageActive(s, 1) || StageActive(s, 2) || StageActive(s, 3)
  }

  method ActiveStages(s: State) returns (stages: seq<nat>)
    ensures forall stage: nat :: stage in stages <==> stage < 4 && StageActive(s, stage)
  {
    hide StageActive;
    stages := [];
    for stage := 0 to 4
      invariant forall k: nat :: k in stages <==> k < stage && StageActive(s, k)
    {
      if StageActive(s, stage) {
        stages := stages + [stage];
      }
    }
  }

  // ---- Combiners ----

  /** The combiner registers hold one of the recognised set-ups. */
  predicate CombinerIs(s: State, colorInput: nat, alphaInput: nat, output: nat) {
    && Register(s, COMBINER_CONTROL) % 0x100 == 1 && Register(s, 0x0AC0) == colorInput
    && Register(s, 0x0260) == alphaInput && Register(s, 0x1E40) == output && Register(s, 0x0AA0) == 0x0C00
  }

  predicate KnownCombiner(s: State, textured: bool) {
    || Register(s, COMBINER_CONTROL) == 0
    || (if textured then
          || CombinerIs(s, 0x0820_0000, 0x1820_0000, 0x0C00)
          || CombinerIs(s, 0x0804_0000, 0x1814_0000, 0x0C00) || CombinerIs(s, 0x0804_0000, 0x1814_0000, 0x1_0C00)
          || CombinerIs(s, 0x0801_0000, 0x1814_0000, 0x0C00)
        else CombinerIs(s, 0x2004, 0x2014, 0x0C00))
  }

  /** The final combiner is unused or passes its input through. */
  predicate FinalCombinerPlain(s: State) {
    var cw0, cw1 := Register(s, 0x0288), Register(s, 0x028C);
    (cw0 == 0 && cw1 == 0) || (cw0 == 0x0C && cw1 / 0x100 % 0x100 == 0x1C)
  }

  // ---- Triangles ----

  /** The length of a range from zero below `limit` by `step`. */
  function Steps(limit: int, step: nat): nat
    requires step > 0
  {
    if limit <= 0 then 0 else (limit + step - 1) / step
  }

  /** Every second triangle begins the next quad. */
  function QuadHalf(k: nat): (nat, nat, nat) {
    var i := 4 * (k / 2); if k % 2 == 0 then (i, i + 1, i + 2) else (i, i + 2, i + 3)
  }

  function StripHalf(k: nat): (nat, nat, nat) {
    var i := 2 * (k / 2); if k % 2 == 0 then (i, i + 1, i + 3) else (i, i + 3, i + 2)
  }

  /** The vertex triples a primitive is made of, for the primitives that are supported. */
  function TriangleIndices(primitive: nat, count: nat): Option<seq<(nat, nat, nat)>> {
    if primitive == 5 then Some(seq(Steps(count - 2, 3), k requires 0 <= k => (3 * k, 3 * k + 1, 3 * k + 2)))
    else if primitive == 6 then Some(seq(Steps(count - 2, 1), k requires 0 <= k => (k, k + 1, k + 2)))
    else if primitive == 7 || primitive == 10 then
      Some(seq(Steps(count - 2, 1), k requires 0 <= k => (0, k + 1, k + 2)))
    else if primitive == 8 then
      Some(seq(2 * Steps(count - 3, 4), k requires 0 <= k => QuadHalf(k)))
    else if primitive == 9 then
      Some(seq(2 * Steps(count - 3, 2), k requires 0 <= k => StripHalf(k)))
    else None
  }

  predicate SupportedPrimitive(primitive: nat) {
    5 <= primitive <= 10
  }

  /** A primitive is supported or not whatever the number of vertices. */
  lemma TrianglesOfPrimitive(primitive: nat, count: nat)
    ensures TriangleIndices(primitive, count) != None <==> SupportedPrimitive(primitive)
  {
  }

  lemma StepBelow(limit: int, step: nat, k: nat)
    requires 1 <= step <= 4 && k < Steps(limit, step)
    ensures k * step < limit
  {
    match step {
      case 1 =>
      case 2 => assert 2 * k < limit;
      case 3 => assert 3 * k < limit;
      case _ => assert 4 * k < limit;
    }
  }

  /** Every triangle names three different vertices of the draw. */
  lemma TrianglesInside(primitive: nat, count: nat, k: nat)
    requires TriangleIndices(primitive, count).Some? && k < |TriangleIndices(primitive, count).value|
    ensures var (a, b, c) := TriangleIndices(primitive, count).value[k];
      a < count && b < count && c < count && a != b && b != c && a != c
  {
    hide Steps;
    if primitive == 5 {
      StepBelow(count - 2, 3, k);
    } else if primitive == 8 {
      StepBelow(count - 3, 4, k / 2);
    } else if primitive == 9 {
      StepBelow(count - 3, 2, k / 2);
    } else {
      StepBelow(count - 2, 1, k);
    }
  }

  /** How many triangles a draw has: lists take every third vertex, quads every fourth, strips and
      fans all but two, quad strips every second. */
  lemma TriangleCount(primitive: nat, count: nat)
    requires SupportedPrimitive(primitive)
    ensures |TriangleIndices(primitive, count).value| ==
      if primitive == 5 then count / 3
      else if primitive == 8 then 2 * (count / 4)
      else if primitive == 9 then (if count < 2 then 0 else 2 * (count / 2 - 1))
      else (if count < 2 then 0 else count - 2)
  {
  }

  // ---- The verdict ----

  predicate IsDrawKind(kind: Kind) {
    kind == DrawArrays || kind == IndexedBatch
  }

  /** Why a draw is refused before anything of it is read. */
  function UnsupportedReason(s: State, c: Checkpoint, programReason: Option<string>): Option<Reason> {
    if !IsDrawKind(c.kind) then Some(BatchReason(c.kind))
    else if s.program.mode == 2 && s.program.instructions != 0 && programReason != None then
      Some(DrawReason(c.kind, VertexProgram(programReason.value)))
    else if Register(s, ALPHA_TEST) != 0 then Some(DrawReason(c.kind, AlphaTest))
    else if Register(s, BLEND) != 0 then Some(DrawReason(c.kind, Blend))
    else if Register(s, STENCIL_TEST) != 0 then Some(DrawReason(c.kind, Stencil))
    else if OtherStageActive(s) then Some(DrawReason(c.kind, Multitexture))
    else if StageActive(s, 0) && StageMode(s, 0) != 1 then Some(DrawReason(c.kind, TextureMode))
    else if StageActive(s, 0) && Swizzle.TextureFormatInfo(Register(s, TEXTURE_STAGES + 4) / 0x100 % 0x100) == None then
      Some(DrawReason(c.kind, Texture(Swizzle.TextureFormat)))
    else if !KnownCombiner(s, StageActive(s, 0)) || !FinalCombinerPlain(s) then Some(DrawReason(c.kind, Combiner))
    else if c.count < 3 then Some(DrawReason(c.kind, VertexCount))
    else if TriangleIndices(c.primitive, c.count) == None then Some(DrawReason(c.kind, Primitive))
    else None
  }

  /** The vertices a draw reads, in order. */
  function SourceIndices(c: Checkpoint): seq<nat> {
    if c.kind == IndexedBatch then c.indices else seq(c.count, i requires 0 <= i => c.data % 0x100_0000 + i)
  }

  predicate DepthSurfaceUsable(s: State) {
    1 <= ZetaFormat(s) <= 2 && Register(s, SURFACE_ZETA_OFFSET) != 0
  }

  /** Why a draw whose vertices have been read is not executed. */
  function SurfaceFault(s: State, depthKnown: bool): Option<Fault> {
    if Register(s, SURFACE_COLOR_OFFSET) == 0 then Some(ColorSurface)
    else if Register(s, DEPTH_TEST) == 0 then None
    else if !DepthSurfaceUsable(s) then Some(DepthSurface)
    else if !depthKnown then Some(DepthInput)
    else None
  }

  /** The triangles of a draw. */
  function Triangles(c: Checkpoint): seq<(nat, nat, nat)> {
    match TriangleIndices(c.primitive, |SourceIndices(c)|)
    case Some(triangles) => triangles
    case None => []
  }

  /** Every vertex of a draw can be read. */
  predicate AllRead(c: Checkpoint, inputs: Inputs) {
    forall i :: 0 <= i < |SourceIndices(c)| ==> inputs.vertex(SourceIndices(c)[i]) != None
  }

  /** Why a draw is refused: the first of its faults, or none when its triangles are drawn. */
  function DrawFault(s: State, c: Checkpoint, inputs: Inputs): Option<Reason> {
    if UnsupportedReason(s, c, inputs.programReason) != None then UnsupportedReason(s, c, inputs.programReason)
    else if StageActive(s, 0) && inputs.sampler.1 != None then Some(DrawReason(c.kind, Texture(inputs.sampler.1.value)))
    else if !AllRead(c, inputs) then
      Some(DrawReason(c.kind, VertexInput))
    else match SurfaceFault(s, inputs.depthKnown)
      case Some(fault) => Some(DrawReason(c.kind, fault))
      case None => None
  }

  method DrawUnsupportedReason(s: State, c: Checkpoint, programReason: Option<string>) returns (r: Option<Reason>)
    ensures r == UnsupportedReason(s, c, programReason)
  {
    hide Register, StageMode, StageActive, KnownCombiner, FinalCombinerPlain, TriangleIndices;
    if c.kind != DrawArrays && c.kind != IndexedBatch {
      return Some(BatchReason(c.kind));
    }
    if s.program.mode == 2 && s.program.instructions != 0 {
      if programReason != None {
        return Some(DrawReason(c.kind, VertexProgram(programReason.value)));
      }
    }
    if Register(s, ALPHA_TEST) != 0 {
      return Some(DrawReason(c.kind, AlphaTest));
    }
    if Register(s, BLEND) != 0 {
      return Some(DrawReason(c.kind, Blend));
    }
    if Register(s, STENCIL_TEST) != 0 {
      return Some(DrawReason(c.kind, Stencil));
    }
    var active := ActiveStages(s);
    if 1 in active || 2 in active || 3 in active {
      return Some(DrawReason(c.kind, Multitexture));
    }
    var textured := 0 in active;
    if textured {
      if StageMode(s, 0) != 1 {
        return Some(DrawReason(c.kind, TextureMode));
      }
      if Swizzle.TextureFormatInfo(Register(s, TEXTURE_STAGES + 4) / 0x100 % 0x100) == None {
        return Some(DrawReason(c.kind, Texture(Swizzle.TextureFormat)));
      }
    }
    if !KnownCombiner(s, textured) || !FinalCombinerPlain(s) {
      return Some(DrawReason(c.kind, Combiner));
    }
    if c.count < 3 {
      return Some(DrawReason(c.kind, VertexCount));
    }
    if TriangleIndices(c.primitive, c.count) == None {
      return Some(DrawReason(c.kind, Primitive));
    }
    return None;
  }

  method FindSurfaceFault(s: State, depthKnown: bool) returns (r: Option<Fault>)
    ensures r == SurfaceFault(s, depthKnown)
  {
    hide Register;
    if Register(s, SURFACE_COLOR_OFFSET) == 0 {
      return Some(ColorSurface);
    }
    var zetaFormat := ZetaFormat(s);
    if Register(s, DEPTH_TEST) != 0 {
      if (zetaFormat != 1 && zetaFormat != 2) || Register(s, SURFACE_ZETA_OFFSET) == 0 {
        return Some(DepthSurface);
      }
      if !depthKnown {
        return Some(DepthInput);
      }
    }
    return None;
  }

  /** A draw that is not refused is of a kind that draws. */
  lemma DrawableKind(s: State, c: Checkpoint, programReason: Option<string>)
    requires UnsupportedReason(s, c, programReason) == None
    ensures IsDrawKind(c.kind)
  {
    hide Register, StageActive, KnownCombiner, FinalCombinerPlain, TriangleIndices;
  }

  /** The triangles of a draw that is not refused are known, whatever was read. */
  lemma TrianglesKnown(s: State, c: Checkpoint, programReason: Option<string>, count: nat)
    requires UnsupportedReason(s, c, programReason) == None
    ensures TriangleIndices(c.primitive, count) != None
  {
    hide Register, StageActive, KnownCombiner, FinalCombinerPlain, TriangleIndices;
    TrianglesOfPrimitive(c.primitive, c.count);
    TrianglesOfPrimitive(c.primitive, count);
  }

  /** Nothing about the pipeline of a draw is beyond the replay. */
  predicate PipelineSupported(s: State, programReason: Option<string>) {
    && (s.program.mode == 2 && s.program.instructions != 0 ==> programReason == None)
    && Register(s, ALPHA_TEST) == 0 && Register(s, BLEND) == 0 && Register(s, STENCIL_TEST) == 0
    && !OtherStageActive(s)
    && (StageActive(s, 0) ==>
          StageMode(s, 0) == 1 && Swizzle.TextureFormatInfo(Register(s, TEXTURE_STAGES + 4) / 0x100 % 0x100) != None)
    && KnownCombiner(s, StageActive(s, 0)) && FinalCombinerPlain(s)
  }

  /** Everything a draw needs before its triangles are drawn. */
  predicate Drawable(s: State, c: Checkpoint, inputs: Inputs) {
    && IsDrawKind(c.kind) && c.count >= 3 && SupportedPrimitive(c.primitive)
    && PipelineSupported(s, inputs.programReason) && (StageActive(s, 0) ==> inputs.sampler.0 != None)
    && AllRead(c, inputs) && Register(s, SURFACE_COLOR_OFFSET) != 0
    && (Register(s, DEPTH_TEST) != 0 ==> DepthSurfaceUsable(s) && inputs.depthKnown)
  }

  /** Exactly the draws that no fault stops. */
  lemma FaultlessExactly(s: State, c: Checkpoint, inputs: Inputs)
    ensures DrawFault(s, c, inputs) == None <==> Drawable(s, c, inputs)
  {
    hide Register, StageMode, StageActive, OtherStageActive, KnownCombiner, FinalCombinerPlain, TriangleIndices;
    hide DepthSurfaceUsable;
    TrianglesOfPrimitive(c.primitive, c.count);
  }

  // ---- Drawing ----

  /** The vertices of a draw, in order. */
  function Vertices(c: Checkpoint, inputs: Inputs): (vs: seq<Vertex>)
    requires AllRead(c, inputs)
    ensures |vs| == |SourceIndices(c)|
  {
    seq(|SourceIndices(c)|, i requires 0 <= i < |SourceIndices(c)| => inputs.vertex(SourceIndices(c)[i]).value)
  }

  /** The vertices of a draw, unless one cannot be read. */
  method ReadVertices(c: Checkpoint, found: Inputs) returns (r: Option<seq<Vertex>>)
    ensures r != None <==> AllRead(c, found)
    ensures r != None ==> r.value == Vertices(c, found)
  {
    hide SourceIndices;
    var sourceIndices := SourceIndices(c);
    var vertices: seq<Vertex> := [];
    for i := 0 to |sourceIndices|
      invariant |vertices| == i
      invariant forall k :: 0 <= k < i ==> found.vertex(sourceIndices[k]) == Some(vertices[k])
    {
      var vertex := found.vertex(sourceIndices[i]);
      if vertex == None {
        return None;
      }
      vertices := vertices + [vertex.value];
    }
    return Some(vertices);
  }

  /** The checks of a draw before its triangles, in order: the first that fails gives the fault. */
  method FindDrawFault(s: State, c: Checkpoint, found: Inputs) returns (r: Option<Reason>, vertices: seq<Vertex>)
    ensures r == DrawFault(s, c, found)
    ensures r == None ==> AllRead(c, found) && vertices == Vertices(c, found)
  {
    hide StageActive, UnsupportedReason, SurfaceFault, AllRead, SourceIndices;
    vertices := [];
    r := DrawUnsupportedReason(s, c, found.programReason);
    if r != None {
      return;
    }
    DrawableKind(s, c, found.programReason);
    var sampler := None;
    if StageActive(s, 0) {
      sampler := found.sampler.0;
      if found.sampler.1 != None {
        return Some(DrawReason(c.kind, Texture(found.sampler.1.value))), [];
      }
      assert sampler != None;
    }
    var read := ReadVertices(c, found);
    if read == None {
      return Some(DrawReason(c.kind, VertexInput)), [];
    }
    var fault := FindSurfaceFault(s, found.depthKnown);
    if fault != None {
      return Some(DrawReason(c.kind, fault.value)), [];
    }
    return None, read.value;
  }

  lemma FaultlessTriangles(s: State, c: Checkpoint, inputs: Inputs, count: nat)
    requires DrawFault(s, c, inputs) == None
    ensures TriangleIndices(c.primitive, count) != None
  {
    hide UnsupportedReason, StageActive, SurfaceFault, AllRead, TriangleIndices;
    TrianglesKnown(s, c, inputs.programReason, count);
  }

  /** No triangle leaves the depth region. */
  ghost predicate AllFit(vs: seq<Vertex>, triangles: seq<(nat, nat, nat)>, s: State, depthSize: nat) {
    forall k :: 0 <= k < |triangles| ==> TriangleStays(vs, triangles[k], s, depthSize)
  }

  ghost predicate TriangleStays(vs: seq<Vertex>, t: (nat, nat, nat), s: State, depthSize: nat) {
    t.0 < |vs| && t.1 < |vs| && t.2 < |vs| ==>
      TriangleFits(vs[t.0], vs[t.1], vs[t.2], SurfaceGeometry(s), DepthLayout(s, depthSize))
  }

  /** A draw that no fault stops raises when it tests depth and an access leaves the depth region. */
  ghost predicate DrawRaises(s: State, c: Checkpoint, inputs: Inputs) {
    && DrawFault(s, c, inputs) == None && Register(s, DEPTH_TEST) != 0 && AllRead(c, inputs)
    && !AllFit(Vertices(c, inputs), Triangles(c), s, inputs.depthSize)
  }

  lemma FaultlessRead(s: State, c: Checkpoint, inputs: Inputs)
    requires DrawFault(s, c, inputs) == None
    ensures AllRead(c, inputs)
  {
    hide UnsupportedReason, StageActive, SurfaceFault;
  }

  lemma TrianglesNameVertices(c: Checkpoint)
    ensures forall k :: 0 <= k < |Triangles(c)| ==>
      var t := Triangles(c)[k]; t.0 < |SourceIndices(c)| && t.1 < |SourceIndices(c)| && t.2 < |SourceIndices(c)|
  {
    hide TriangleIndices, SourceIndices;
    forall k | 0 <= k < |Triangles(c)| ensures
      var t := Triangles(c)[k]; t.0 < |SourceIndices(c)| && t.1 < |SourceIndices(c)| && t.2 < |SourceIndices(c)|
    {
      TrianglesInside(c.primitive, |SourceIndices(c)|, k);
    }
  }

  /** The triangles in order, up to the first that raises. */
  method DrawTriangles(vs: seq<Vertex>, triangles: seq<(nat, nat, nat)>, s: State, found: Inputs) returns (ok: bool)
    requires forall k :: 0 <= k < |triangles| ==>
      triangles[k].0 < |vs| && triangles[k].1 < |vs| && triangles[k].2 < |vs|
    ensures ok <==> Register(s, DEPTH_TEST) == 0 || AllFit(vs, triangles, s, found.depthSize)
  {
    hide Register, TriangleFits, SurfaceGeometry, DepthLayout;
    var depth := if Register(s, DEPTH_TEST) != 0 then Some(DepthLayout(s, found.depthSize)) else None;
    for k := 0 to |triangles|
      invariant depth.Some? ==> AllFit(vs, triangles[..k], s, found.depthSize)
    {
      var (a, b, c) := triangles[k];
      var drawn := FillTriangle(vs[a], vs[b], vs[c], s, depth, found.colorSize, found.passes);
      if !drawn {
        assert !TriangleStays(vs, triangles[k], s, found.depthSize);
        return false;
      }
      assert triangles[..k + 1] == triangles[..k] + [triangles[k]];
    }
    assert triangles[..|triangles|] == triangles;
    return true;
  }

  /** With rows that fit the depth pitch, no draw raises. */
  lemma WideDraws(s: State, c: Checkpoint, inputs: Inputs)
    requires DepthRowFits(s)
    ensures !DrawRaises(s, c, inputs)
  {
    hide DrawFault, Register, TriangleFits, SurfaceGeometry, DepthLayout, DepthRowFits, AllRead, Vertices, Triangles;
    if AllRead(c, inputs) {
      var vs, triangles := Vertices(c, inputs), Triangles(c);
      forall k | 0 <= k < |triangles| ensures TriangleStays(vs, triangles[k], s, inputs.depthSize) {
        var (i, j, n) := triangles[k];
        if i < |vs| && j < |vs| && n < |vs| {
          WideFits(vs[i], vs[j], vs[n], s, inputs.depthSize);
        }
      }
    }
  }

  /** A draw is executed when no fault stops it and it does not raise. */
  ghost predicate Executes(s: State, c: Checkpoint, inputs: Inputs) {
    DrawFault(s, c, inputs) == None && !DrawRaises(s, c, inputs)
  }

  /** Exactly the draws that are executed: nothing they need is missing and, with depth tested, every
      pixel their triangles touch is inside the depth region. */
  lemma ExecutedExactly(s: State, c: Checkpoint, inputs: Inputs)
    ensures Executes(s, c, inputs) <==>
      && Drawable(s, c, inputs)
      && (Register(s, DEPTH_TEST) != 0 ==> AllFit(Vertices(c, inputs), Triangles(c), s, inputs.depthSize))
  {
    hide DrawFault, PipelineSupported, StageActive, Register, AllFit, Triangles, SourceIndices;
    FaultlessExactly(s, c, inputs);
  }

  /** Vertices under which triangle `t` covers the surface. */
  function Covering(c: Checkpoint, t: (nat, nat, nat), g: Geometry): nat -> Option<Vertex> {
    var first := c.data % 0x100_0000;
    (i: nat) =>
      if i == first + t.0 then Some(Cover(g).0) else if i == first + t.1 then Some(Cover(g).1) else Some(Cover(g).2)
  }

  lemma CoveringRaises(s: State, c: Checkpoint, inputs: Inputs)
    requires c.kind == DrawArrays && Triangles(c) != [] && DrawFault(s, c, inputs) == None
    requires Register(s, DEPTH_TEST) != 0 && !DepthRowFits(s)
    ensures DrawRaises(s, c, inputs.(vertex := Covering(c, Triangles(c)[0], SurfaceGeometry(s)), depthSize := 0))
  {
    hide Register, StageActive, PipelineSupported, DepthSurfaceUsable, SurfaceGeometry, DepthLayout, DepthRowFits;
    hide TriangleFits, DrawFault, TriangleIndices, Cover;
    var g, t := SurfaceGeometry(s), Triangles(c)[0];
    var inputs' := inputs.(vertex := Covering(c, t, g), depthSize := 0);
    FaultlessExactly(s, c, inputs);
    FaultlessExactly(s, c, inputs');
    TrianglesInside(c.primitive, c.count, 0);
    var vs := Vertices(c, inputs');
    assert vs[t.0] == Cover(g).0 && vs[t.1] == Cover(g).1 && vs[t.2] == Cover(g).2;
    CoverLeaves(s);
    assert !TriangleStays(vs, t, s, 0);
  }

  /** Whether a draw can raise at all, for the vertices it may meet in a depth region of exactly its
      size, depends only on whether a row of depth values fits the depth pitch. */
  lemma RaisesExactly(s: State, c: Checkpoint, inputs: Inputs)
    requires c.kind == DrawArrays && Triangles(c) != [] && DrawFault(s, c, inputs) == None
    requires Register(s, DEPTH_TEST) != 0
    ensures (exists vertex :: DrawRaises(s, c, inputs.(vertex := vertex, depthSize := 0))) <==> !DepthRowFits(s)
  {
    hide DrawRaises, DrawFault, Register, DepthRowFits, SurfaceGeometry;
    if DepthRowFits(s) {
      forall vertex ensures !DrawRaises(s, c, inputs.(vertex := vertex, depthSize := 0)) {
        WideDraws(s, c, inputs.(vertex := vertex, depthSize := 0));
      }
    } else {
      CoveringRaises(s, c, inputs);
    }
  }

  // ---- A depth pitch that is too narrow ----

  /** Two pixels in one row, a color pitch of 8 bytes, a depth pitch of 4 and depth values of 4. */
  function NarrowState(): State {
    var r := Start().registers;
    Start().(registers := r[0x80 := 0x2_0000][0x81 := 0x1_0000][0x82 := 0x20][0x83 := 0x4_0008][0x84 := 0x1000]
                           [0x85 := 0x2000][0xC3 := 1])
  }

  function NarrowDraw(): Checkpoint {
    Checkpoint(0, 0, 0, 0, DrawArrays, DRAW_ARRAYS, 0x200_0000, 5, 3, NarrowState(), [])
  }

  function NarrowInputs(): Inputs {
    Inputs(None, (None, Some(Swizzle.TextureFormat)), (i: nat) => Some(Vertex(0.0, 0.0, 1.0)), true, 0, 0,
           (x, y) => true)
  }

  lemma NarrowFaultless(inputs: Inputs)
    requires inputs.programReason == None && inputs.depthKnown && AllRead(NarrowDraw(), inputs)
    ensures DrawFault(NarrowState(), NarrowDraw(), inputs) == None
  {
    hide UnsupportedReason, AllRead, StageActive, SurfaceFault, NarrowState, NarrowDraw;
    NarrowPlain(inputs.programReason);
    NarrowSurfaces();
  }

  lemma NarrowSurfaces()
    ensures !StageActive(NarrowState(), 0) && SurfaceFault(NarrowState(), true) == None
  {
  }

  lemma NarrowPlain(programReason: Option<string>)
    requires programReason == None
    ensures UnsupportedReason(NarrowState(), NarrowDraw(), programReason) == None
  {
  }

  lemma NarrowGeometry()
    ensures SurfaceGeometry(NarrowState()) == Geometry(8, 2, 1) && !DepthRowFits(NarrowState())
    ensures Register(NarrowState(), DEPTH_TEST) == 1 && Triangles(NarrowDraw()) == [(0, 1, 2)]
  {
  }

  /** A draw that raises: no fault stops it, but the second pixel of its row has no depth. */
  lemma NarrowRaises()
    ensures var inputs := NarrowInputs().(vertex := Covering(NarrowDraw(), (0, 1, 2), Geometry(8, 2, 1)));
      && DrawFault(NarrowState(), NarrowDraw(), inputs) == None
      && DrawRaises(NarrowState(), NarrowDraw(), inputs)
  {
    hide DrawFault, DrawRaises, Register, SurfaceGeometry, DepthRowFits, Triangles;
    NarrowGeometry();
    NarrowFaultless(NarrowInputs());
    NarrowFaultless(NarrowInputs().(vertex := Covering(NarrowDraw(), (0, 1, 2), Geometry(8, 2, 1))));
    CoveringRaises(NarrowState(), NarrowDraw(), NarrowInputs());
  }

  /** So does a clear of the depth of both pixels. */
  lemma NarrowClearRaises()
    ensures var s := NarrowState();
      ClearRaises(s.(registers := s.registers[CLEAR_RECT_HORIZONTAL / 4 := 0x1_0000]), 1, 0)
  {
    var s := NarrowState();
    var t := s.(registers := s.registers[CLEAR_RECT_HORIZONTAL / 4 := 0x1_0000]);
    assert ClearRect(t) == Some(Rect(0, 1, 0, 0));
    assert InRect(Rect(0, 1, 0, 0), 1, 0) && DepthCleared(t, 1)[3];
    assert !ByteInside(DepthLayout(t, 0), 1, 0, 3);
  }
}
