/** Texel addressing of the pixel replay: the swizzled index, sampler dimensions and the bytes a
    texel fetch reads (nv2a_capture.py: swizzle_texel_index, integer_log2, build_sampler,
    fetch_texel). */
module Swizzle {
  import opened Bytes
  import opened Numbers
  import opened Wrappers
  import opened PixelMemory

  // ---- The swizzled index ----

  function Low(i: nat): (bit: nat) ensures bit < 2 { i % 2 }
  function Half(i: nat): nat { i / 2 }

  /** A number from its lowest bit and the others. */
  function Join(low: nat, rest: nat): nat { low + 2 * rest }

  /** The bits of `x` and `y` taken in turn from the lowest; once one runs out, the rest of the other. */
  function Index(x: nat, y: nat, a: nat, b: nat): nat
    decreases a + b
  {
    if a > 0 && b > 0 then Join(Low(x), Join(Low(y), Index(Half(x), Half(y), a - 1, b - 1)))
    else if a > 0 then Join(Low(x), Index(Half(x), y, a - 1, 0))
    else if b > 0 then Join(Low(y), Index(x, Half(y), 0, b - 1))
    else 0
  }

  /** The texel at an index. */
  function Texel(i: nat, a: nat, b: nat): (nat, nat)
    decreases a + b
  {
    if a > 0 && b > 0 then
      var t := Texel(Half(Half(i)), a - 1, b - 1);
      (Join(Low(i), t.0), Join(Low(Half(i)), t.1))
    else if a > 0 then
      var t := Texel(Half(i), a - 1, 0);
      (Join(Low(i), t.0), t.1)
    else if b > 0 then
      var t := Texel(Half(i), 0, b - 1);
      (t.0, Join(Low(i), t.1))
    else (0, 0)
  }

  lemma Joined(low: nat, rest: nat)
    requires low < 2
    ensures Low(Join(low, rest)) == low && Half(Join(low, rest)) == rest
  {
  }

  lemma Rejoined(i: nat)
    ensures Join(Low(i), Half(i)) == i
  {
  }

  lemma HalfBelow(i: nat, n: nat)
    requires n > 0
    ensures i < Pow2(n) <==> Half(i) < Pow2(n - 1)
  {
  }

  lemma {:induction false} IndexInverts(x: nat, y: nat, a: nat, b: nat)
    requires x < Pow2(a) && y < Pow2(b)
    ensures Index(x, y, a, b) < Pow2(a + b) && Texel(Index(x, y, a, b), a, b) == (x, y)
    decreases a + b
  {
    hide Low, Half, Join, Pow2;
    var i := Index(x, y, a, b);
    Rejoined(x);
    Rejoined(y);
    if a > 0 && b > 0 {
      HalfBelow(x, a);
      HalfBelow(y, b);
      IndexInverts(Half(x), Half(y), a - 1, b - 1);
      var rest := Index(Half(x), Half(y), a - 1, b - 1);
      Joined(Low(x), Join(Low(y), rest));
      Joined(Low(y), rest);
      HalfBelow(i, a + b);
      HalfBelow(Half(i), a + b - 1);
    } else if a > 0 {
      HalfBelow(x, a);
      IndexInverts(Half(x), y, a - 1, 0);
      Joined(Low(x), Index(Half(x), y, a - 1, 0));
      HalfBelow(i, a);
    } else if b > 0 {
      HalfBelow(y, b);
      IndexInverts(x, Half(y), 0, b - 1);
      Joined(Low(y), Index(x, Half(y), 0, b - 1));
      HalfBelow(i, b);
    } else {
      OnePower();
    }
  }

  lemma OnePower()
    ensures Pow2(0) == 1
  {
  }

  lemma {:induction false} TexelInverts(i: nat, a: nat, b: nat)
    requires i < Pow2(a + b)
    ensures var t := Texel(i, a, b); t.0 < Pow2(a) && t.1 < Pow2(b) && Index(t.0, t.1, a, b) == i
    decreases a + b
  {
    hide Low, Half, Join, Pow2;
    Rejoined(i);
    OnePower();
    if a > 0 && b > 0 {
      HalfBelow(i, a + b);
      HalfBelow(Half(i), a + b - 1);
      TexelInverts(Half(Half(i)), a - 1, b - 1);
      var t := Texel(Half(Half(i)), a - 1, b - 1);
      Rejoined(Half(i));
      Joined(Low(i), t.0);
      Joined(Low(Half(i)), t.1);
      HalfBelow(Join(Low(i), t.0), a);
      HalfBelow(Join(Low(Half(i)), t.1), b);
    } else if a > 0 {
      HalfBelow(i, a);
      TexelInverts(Half(i), a - 1, 0);
      var t := Texel(Half(i), a - 1, 0);
      Joined(Low(i), t.0);
      HalfBelow(Join(Low(i), t.0), a);
    } else if b > 0 {
      HalfBelow(i, b);
      TexelInverts(Half(i), 0, b - 1);
      var t := Texel(Half(i), 0, b - 1);
      Joined(Low(i), t.1);
      HalfBelow(Join(Low(i), t.1), b);
    }
  }

  lemma {:induction false} Pow2Monotone(a: nat, b: nat)
    requires a <= b
    ensures Pow2(a) <= Pow2(b)
  {
    if a < b {
      Pow2Monotone(a, b - 1);
    }
  }

  lemma {:induction false} Pow2Sum(a: nat, b: nat)
    ensures Pow2(a + b) == Pow2(a) * Pow2(b)
  {
    if b > 0 {
      Pow2Sum(a, b - 1);
      Twice(Pow2(a), Pow2(b - 1));
    }
  }

  lemma Twice(p: nat, q: nat)
    ensures 2 * (p * q) == p * (2 * q)
  {
  }

  /** `x` shifted right by `k` bits. */
  function Shr(x: nat, k: nat): nat {
    if k == 0 then x else Half(Shr(x, k - 1))
  }

  lemma Distribute(p: nat, low: nat, rest: nat)
    ensures p * Join(low, rest) == low * p + 2 * p * rest
  {
  }

  method SwizzleTexelIndex(x: nat, y: nat, logWidth: nat, logHeight: nat) returns (result: nat)
    ensures result == Index(x, y, logWidth, logHeight)
  {
    hide Index, Shr, Low, Half;
    result := 0;
    var outputBit, xBit, yBit := 0, 0, 0;
    ghost var round := 0;
    ShrNone(x);
    ShrNone(y);
    while xBit < logWidth || yBit < logHeight
      invariant xBit == Min(round, logWidth) && yBit == Min(round, logHeight)
      invariant Index(x, y, logWidth, logHeight)
        == result + Pow2(outputBit) * Index(Shr(x, xBit), Shr(y, yBit), logWidth - xBit, logHeight - yBit)
      decreases logWidth + logHeight - xBit - yBit
    {
      IndexRound(Shr(x, xBit), Shr(y, yBit), logWidth - xBit, logHeight - yBit, Pow2(outputBit));
      if xBit < logWidth {
        ShrNext(x, xBit);
        result := result + Low(Shr(x, xBit)) * Pow2(outputBit);
        outputBit := outputBit + 1;
        xBit := xBit + 1;
      }
      if yBit < logHeight {
        ShrNext(y, yBit);
        result := result + Low(Shr(y, yBit)) * Pow2(outputBit);
        outputBit := outputBit + 1;
        yBit := yBit + 1;
      }
      round := round + 1;
    }
    IndexNone(Shr(x, xBit), Shr(y, yBit));
  }

  lemma ShrNone(x: nat)
    ensures Shr(x, 0) == x
  {
  }

  lemma ShrNext(x: nat, k: nat)
    ensures Shr(x, k + 1) == Half(Shr(x, k))
  {
  }

  lemma IndexNone(x: nat, y: nat)
    ensures Index(x, y, 0, 0) == 0
  {
  }

  /** One round of the loop: the two lowest bits, or the lowest of the one left. */
  lemma IndexRound(x: nat, y: nat, a: nat, b: nat, p: nat)
    ensures a > 0 && b > 0 ==>
      p * Index(x, y, a, b) == Low(x) * p + Low(y) * (2 * p) + 2 * (2 * p) * Index(Half(x), Half(y), a - 1, b - 1)
    ensures a > 0 && b == 0 ==> p * Index(x, y, a, b) == Low(x) * p + 2 * p * Index(Half(x), y, a - 1, b)
    ensures a == 0 && b > 0 ==> p * Index(x, y, a, b) == Low(y) * p + 2 * p * Index(x, Half(y), a, b - 1)
  {
    hide Low, Half, Join;
    if a > 0 && b > 0 {
      var rest := Index(Half(x), Half(y), a - 1, b - 1);
      Distribute(p, Low(x), Join(Low(y), rest));
      Distribute(2 * p, Low(y), rest);
    } else if a > 0 {
      Distribute(p, Low(x), Index(Half(x), y, a - 1, 0));
    } else if b > 0 {
      Distribute(p, Low(y), Index(x, Half(y), 0, b - 1));
    }
  }

  /** The least power of two that is not less than a value. */
  method IntegerLog2(value: nat) returns (result: nat)
    ensures value <= Pow2(result) && (result > 0 ==> Pow2(result - 1) < value)
    ensures forall k: nat :: value == Pow2(k) ==> result == k
  {
    result := 0;
    Pow2Exceeds(value);
    while Pow2(result) < value
      invariant result > 0 ==> Pow2(result - 1) < value
      invariant result <= value
      decreases value - result
    {
      Pow2Exceeds(result);
      result := result + 1;
    }
    forall k: nat | value == Pow2(k)
      ensures result == k
    {
      Log2Exact(k, result);
    }
  }

  lemma {:induction false} Pow2Exceeds(n: nat)
    ensures n < Pow2(n)
  {
    if n > 0 {
      Pow2Exceeds(n - 1);
    }
  }

  lemma Log2Exact(k: nat, r: nat)
    requires Pow2(k) <= Pow2(r) && (r > 0 ==> Pow2(r - 1) < Pow2(k))
    ensures r == k
  {
    if k < r {
      Pow2Monotone(k, r - 1);
    } else if r < k {
      Pow2Monotone(r, k - 1);
    }
  }

  // ---- Samplers ----

  datatype Sampler = Sampler(source: seq<byte>, palette: seq<nat>, width: nat, height: nat, pitch: nat,
                             bytesPerPixel: nat, kind: nat, swizzled: bool)

  const PALETTED: nat := 5

  /** Bytes per pixel, kind and layout of a color format. */
  function TextureFormatInfo(format: nat): Option<(nat, nat, bool)> {
    if format == 0x00 then Some((1, 4, true))
    else if format == 0x13 then Some((1, 4, false))
    else if format == 0x02 || format == 0x03 then Some((2, 2, true))
    else if format == 0x10 then Some((2, 2, false))
    else if format == 0x04 then Some((2, 3, true))
    else if format == 0x19 then Some((2, 3, false))
    else if format == 0x05 then Some((2, 1, true))
    else if format == 0x11 then Some((2, 1, false))
    else if format == 0x06 || format == 0x07 then Some((4, 0, true))
    else if format == 0x0B then Some((1, PALETTED, true))
    else if format == 0x12 || format == 0x1A || format == 0x1C || format == 0x1E then Some((4, 0, false))
    else None
  }

  lemma FormatSizes(format: nat)
    ensures var info := TextureFormatInfo(format);
      info.Some? ==> info.value.0 > 0 && (info.value.1 == PALETTED ==> info.value.0 == 1)
  {
  }

  ghost predicate PowerOf2(n: nat) { exists k: nat :: n == Pow2(k) }

  function RowBytes(width: nat, bytesPerPixel: nat): nat { width * bytesPerPixel }

  function SourceSize(swizzled: bool, width: nat, height: nat, pitch: nat, bytesPerPixel: nat): nat {
    if swizzled then width * height * bytesPerPixel else pitch * height
  }

  ghost predicate ValidSampler(s: Sampler) {
    && s.width > 0 && s.height > 0 && s.bytesPerPixel > 0 && |s.palette| == 256
    && (s.kind == PALETTED ==> s.bytesPerPixel == 1)
    && (if s.swizzled then PowerOf2(s.width) && PowerOf2(s.height) else RowBytes(s.width, s.bytesPerPixel) <= s.pitch)
    && |s.source| == SourceSize(s.swizzled, s.width, s.height, s.pitch, s.bytesPerPixel)
  }

  /** The registers and resolved addresses a sampler is built from. */
  datatype Texture = Texture(colorFormat: nat, sizeU: nat, sizeV: nat, imageRect: nat, control1: nat, address: nat,
                             paletteBase: nat, paletteState: nat)

  /** Why a sampler cannot be built. */
  datatype TextureFault = TextureFormat | TextureDimensions | TextureInput | PaletteInput

  function Dimensions(t: Texture, swizzled: bool): Option<(nat, nat)> {
    var rect := !swizzled && t.imageRect != 0;
    var width := if rect then t.imageRect / 0x1_0000 else Pow2(t.sizeU);
    var height := if rect then t.imageRect % 0x1_0000 else Pow2(t.sizeV);
    if 0 < width <= 4096 && 0 < height <= 4096 then Some((width, height)) else None
  }

  function Pitch(t: Texture, rowBytes: nat, swizzled: bool): (pitch: nat)
    ensures rowBytes <= pitch
  {
    var pitch := t.control1 / 0x1_0000 % 0x1_0000;
    if swizzled || pitch < rowBytes then rowBytes else pitch
  }

  lemma DimensionsFit(t: Texture, swizzled: bool)
    ensures var d := Dimensions(t, swizzled);
      d.Some? ==> d.value.0 > 0 && d.value.1 > 0 && (swizzled ==> PowerOf2(d.value.0) && PowerOf2(d.value.1))
  {
    hide Pow2;
  }

  /** Layout of a texture whose format and dimensions are known. */
  function Layout(t: Texture): (r: Option<Sampler>)
    ensures r.Some? ==> r.value.source == [] && r.value.palette == []
  {
    match TextureFormatInfo(t.colorFormat)
    case None => None
    case Some((bytesPerPixel, kind, swizzled)) =>
      match Dimensions(t, swizzled)
      case None => None
      case Some((width, height)) =>
        Some(Sampler([], [], width, height, Pitch(t, RowBytes(width, bytesPerPixel), swizzled), bytesPerPixel, kind,
                     swizzled))
  }

  /** Bytes of source a layout needs. */
  function SourceBytes(s: Sampler): nat {
    SourceSize(s.swizzled, s.width, s.height, s.pitch, s.bytesPerPixel)
  }

  lemma SourceNotEmpty(s: Sampler)
    requires s.width > 0 && s.height > 0 && s.bytesPerPixel > 0
    requires s.swizzled || RowBytes(s.width, s.bytesPerPixel) <= s.pitch
    ensures SourceBytes(s) > 0
  {
    Positive(s.width, s.bytesPerPixel);
    Positive(s.width, s.height);
    Positive(s.width * s.height, s.bytesPerPixel);
    Positive(s.pitch, s.height);
  }

  lemma Positive(a: nat, b: nat)
    ensures a > 0 && b > 0 ==> a * b > 0
  {
  }

  // ---- Palettes ----

  function EntryCount(paletteState: nat): (n: nat)
    ensures 32 <= n <= 256
  {
    var shift := paletteState / 4 % 4;
    if shift == 0 then 256 else if shift == 1 then 128 else if shift == 2 then 64 else 32
  }

  function AlignDown(v: nat, unit: nat): nat
    requires unit > 0
  {
    v - v % unit
  }

  /** Where a palette may be, in the order of trying. */
  function PaletteAddresses(base: nat, state: nat): (r: seq<nat>)
    ensures 1 <= |r| <= 3
  {
    var hardware := AlignDown(state, 64);
    if base != 0 then [base + hardware]
    else
      var down, up := AlignDown(state, 16), AlignDown((state + 15) % 0x1_0000_0000, 16);
      var both := if up != down then [down, up] else [down];
      if hardware in both then both else both + [hardware]
  }

  /** The first of the ranges that was captured. */
  function FirstCaptured(obs: seq<Observation>, addresses: seq<nat>, size: nat): Option<seq<byte>> {
    if addresses == [] then None
    else if NewestBytes(obs, addresses[0], size).Some? then NewestBytes(obs, addresses[0], size)
    else FirstCaptured(obs, addresses[1..], size)
  }

  function PaletteBytes(t: Texture, obs: seq<Observation>): Option<seq<byte>> {
    FirstCaptured(obs, PaletteAddresses(t.paletteBase, t.paletteState), EntryCount(t.paletteState) * 4)
  }

  /** The entries read, and zeros up to 256. */
  function PaletteOf(raw: seq<byte>, count: nat): (r: seq<nat>)
    ensures |r| == 256
  {
    seq(256, i requires 0 <= i < 256 =>
      if i < count && 4 * i + 4 <= |raw| then LittleEndian(raw[4 * i..4 * i + 4]) else 0)
  }

  method ReadPalette(t: Texture, memory: CapturedPixelMemory) returns (raw: Option<seq<byte>>)
    requires memory.Valid()
    ensures raw == PaletteBytes(t, memory.observations)
  {
    hide CapturedPixelMemory.Valid, NewestBytes;
    var addresses := PaletteAddresses(t.paletteBase, t.paletteState);
    var size := EntryCount(t.paletteState) * 4;
    for i := 0 to |addresses|
      invariant FirstCaptured(memory.observations, addresses, size)
        == FirstCaptured(memory.observations, addresses[i..], size)
    {
      raw := memory.ReadObserved(addresses[i], size);
      assert addresses[i..][1..] == addresses[i + 1..];
      if raw != None {
        return;
      }
    }
    return None;
  }

  // ---- Building ----

  /** Exactly why a texture cannot be sampled from what was captured, if it cannot. */
  function FaultOf(t: Texture, obs: seq<Observation>): Option<TextureFault> {
    if TextureFormatInfo(t.colorFormat) == None then Some(TextureFormat)
    else if Layout(t) == None then Some(TextureDimensions)
    else if NewestBytes(obs, t.address, SourceBytes(Layout(t).value)) == None then Some(TextureInput)
    else if Layout(t).value.kind == PALETTED && PaletteBytes(t, obs) == None then Some(PaletteInput)
    else None
  }

  lemma ReadSize(obs: seq<Observation>, address: nat, size: nat)
    ensures NewestBytes(obs, address, size).Some? ==> |NewestBytes(obs, address, size).value| == size
  {
  }

  /** What building a sampler gives: a sampler or a fault, never both and never neither. */
  type SamplerResult = r: (Option<Sampler>, Option<TextureFault>) | r.0 == None <==> r.1 != None
    witness (None, Some(TextureFormat))

  /** A sampler is built exactly when there is no fault; it has the texture's layout, the captured
      source and, for a paletted format, the captured palette. */
  ghost predicate BuiltFrom(t: Texture, obs: seq<Observation>, sampler: Option<Sampler>) {
    if FaultOf(t, obs) != None then sampler == None
    else
      && sampler.Some? && ValidSampler(sampler.value)
      && Layout(t) == Some(sampler.value.(source := [], palette := []))
      && NewestBytes(obs, t.address, |sampler.value.source|) == Some(sampler.value.source)
      && (sampler.value.kind == PALETTED ==>
            && PaletteBytes(t, obs).Some?
            && sampler.value.palette == PaletteOf(PaletteBytes(t, obs).value, EntryCount(t.paletteState)))
  }

  method BuildSampler(t: Texture, memory: CapturedPixelMemory) returns (r: SamplerResult)
    requires memory.Valid()
    ensures r.1 == FaultOf(t, memory.observations) && BuiltFrom(t, memory.observations, r.0)
  {
    hide CapturedPixelMemory.Valid, NewestBytes, TextureFormatInfo, RowBytes, SourceSize, PowerOf2, Dimensions, Pitch;
    hide PaletteBytes, PaletteOf, EntryCount;
    FormatSizes(t.colorFormat);
    var info := TextureFormatInfo(t.colorFormat);
    if info == None {
      return (None, Some(TextureFormat));
    }
    var (bytesPerPixel, kind, swizzled) := info.value;
    var dimensions := Dimensions(t, swizzled);
    if dimensions == None {
      return (None, Some(TextureDimensions));
    }
    DimensionsFit(t, swizzled);
    var (width, height) := dimensions.value;
    var pitch := Pitch(t, RowBytes(width, bytesPerPixel), swizzled);
    PitchFits(t, RowBytes(width, bytesPerPixel), swizzled);
    var layout := Sampler([], [], width, height, pitch, bytesPerPixel, kind, swizzled);
    SourceNotEmpty(layout);
    var source := memory.ReadObserved(t.address, SourceBytes(layout));
    if source == None {
      return (None, Some(TextureInput));
    }
    ReadSize(memory.observations, t.address, SourceBytes(layout));
    var palette := PaletteOf([], 0);
    if kind == PALETTED {
      var raw := ReadPalette(t, memory);
      if raw == None {
        return (None, Some(PaletteInput));
      }
      palette := PaletteOf(raw.value, EntryCount(t.paletteState));
    }
    return (Some(layout.(source := source.value, palette := palette)), None);
  }

  lemma PitchFits(t: Texture, rowBytes: nat, swizzled: bool)
    ensures rowBytes <= Pitch(t, rowBytes, swizzled)
  {
  }

  // ---- Fetching ----

  function Clamp(v: int, size: nat): nat
    requires size > 0
  {
    if v < 0 then 0 else if v < size then v else size - 1
  }

  /** Where a texel's bytes begin. */
  ghost function Offset(s: Sampler, x: nat, y: nat, a: nat, b: nat): nat {
    if s.swizzled then Index(x, y, a, b) * s.bytesPerPixel else y * s.pitch + x * s.bytesPerPixel
  }

  /** The logarithms of a swizzled sampler's sizes. */
  ghost predicate Logs(s: Sampler, a: nat, b: nat) {
    s.swizzled ==> s.width == Pow2(a) && s.height == Pow2(b)
  }

  lemma Scale(i: nat, n: nat, c: nat)
    requires i < n
    ensures i * c + c <= n * c
  {
    assert (i + 1) * c <= n * c;
  }

  /** A texel inside the sampler lies inside its source. */
  lemma TexelInside(s: Sampler, x: nat, y: nat, a: nat, b: nat)
    requires ValidSampler(s) && Logs(s, a, b) && x < s.width && y < s.height
    ensures Offset(s, x, y, a, b) + s.bytesPerPixel <= |s.source|
  {
    hide Index, Pow2, PowerOf2;
    if s.swizzled {
      IndexInverts(x, y, a, b);
      Pow2Sum(a, b);
      Scale(Index(x, y, a, b), s.width * s.height, s.bytesPerPixel);
    } else {
      Scale(x, s.width, s.bytesPerPixel);
      Scale(y, s.height, s.pitch);
    }
  }

  lemma SwizzledDisjoint(s: Sampler, x: nat, y: nat, x': nat, y': nat, a: nat, b: nat)
    requires s.swizzled && Logs(s, a, b)
    requires x < s.width && y < s.height && x' < s.width && y' < s.height && (x, y) != (x', y')
    ensures Index(x, y, a, b) != Index(x', y', a, b)
  {
    hide Index, Pow2;
    IndexInverts(x, y, a, b);
    IndexInverts(x', y', a, b);
  }

  lemma RowsApart(y: nat, y': nat, pitch: nat, x: nat, x': nat, c: nat)
    requires y < y' && x * c + c <= pitch
    ensures y * pitch + x * c + c <= y' * pitch + x' * c
  {
    Scale(y, y', pitch);
  }

  /** Distinct texels share no byte. */
  lemma TexelsDisjoint(s: Sampler, x: nat, y: nat, x': nat, y': nat, a: nat, b: nat)
    requires ValidSampler(s) && Logs(s, a, b)
    requires x < s.width && y < s.height && x' < s.width && y' < s.height && (x, y) != (x', y')
    ensures var p, q := Offset(s, x, y, a, b), Offset(s, x', y', a, b);
      p + s.bytesPerPixel <= q || q + s.bytesPerPixel <= p
  {
    hide Index, Pow2, PowerOf2, SourceSize;
    if s.swizzled {
      SwizzledDisjoint(s, x, y, x', y', a, b);
      Separate(Index(x, y, a, b), Index(x', y', a, b), s.bytesPerPixel);
    } else if y == y' {
      Separate(x, x', s.bytesPerPixel);
    } else {
      Scale(x, s.width, s.bytesPerPixel);
      Scale(x', s.width, s.bytesPerPixel);
      if y < y' {
        RowsApart(y, y', s.pitch, x, x', s.bytesPerPixel);
      } else {
        RowsApart(y', y, s.pitch, x', x, s.bytesPerPixel);
      }
    }
  }

  lemma Separate(i: nat, j: nat, c: nat)
    requires i != j
    ensures i * c + c <= j * c || j * c + c <= i * c
  {
    if i < j {
      Scale(i, j, c);
    } else {
      Scale(j, i, c);
    }
  }

  function LittleEndian(bytes: seq<byte>): nat {
    if bytes == [] then 0 else bytes[0] + 256 * LittleEndian(bytes[1..])
  }

  /** A color from its channels. */
  function Argb(alpha: nat, red: nat, green: nat, blue: nat): nat {
    ((alpha * 0x100 + red) * 0x100 + green) * 0x100 + blue
  }

  function UnpackTexel(raw: nat, kind: nat): nat {
    if kind == 0 then raw
    else if kind == 1 then Argb(0xFF, raw / 0x800 % 0x20 * 8, raw / 0x20 % 0x40 * 4, raw % 0x20 * 8)
    else if kind == 2 then Argb(0xFF, raw / 0x400 % 0x20 * 8, raw / 0x20 % 0x20 * 8, raw % 0x20 * 8)
    else if kind == 3 then
      Argb(raw / 0x1000 % 0x10 * 0x10, raw / 0x100 % 0x10 * 0x10, raw / 0x10 % 0x10 * 0x10, raw % 0x10 * 0x10)
    else Argb(0xFF, raw % 0x100, raw % 0x100, raw % 0x100)
  }

  function Alpha(color: nat): nat { color / 0x100_0000 }
  function Red(color: nat): nat { color / 0x1_0000 % 0x100 }
  function Green(color: nat): nat { color / 0x100 % 0x100 }
  function Blue(color: nat): nat { color % 0x100 }

  lemma Channels(alpha: nat, red: nat, green: nat, blue: nat)
    requires red < 0x100 && green < 0x100 && blue < 0x100
    ensures var c := Argb(alpha, red, green, blue);
      Alpha(c) == alpha && Red(c) == red && Green(c) == green && Blue(c) == blue
  {
    var rest := alpha * 0x100 + red;
    LowByte(alpha, red);
    LowByte(rest, green);
    LowByte(rest * 0x100 + green, blue);
    var c := Argb(alpha, red, green, blue);
    assert c / 0x100 == rest * 0x100 + green;
    assert c / 0x1_0000 == c / 0x100 / 0x100;
    assert c / 0x100_0000 == c / 0x1_0000 / 0x100;
  }

  lemma LowByte(high: nat, low: nat)
    requires low < 0x100
    ensures (high * 0x100 + low) / 0x100 == high && (high * 0x100 + low) % 0x100 == low
  {
  }

  lemma Bits565(red: nat, green: nat, blue: nat)
    requires red < 0x20 && green < 0x40 && blue < 0x20
    ensures var c := Argb(0xFF, red * 8, green * 4, blue * 8);
      Red(c) / 8 == red && Green(c) / 4 == green && Blue(c) / 8 == blue
  {
    hide Argb, Red, Green, Blue;
    Channels(0xFF, red * 8, green * 4, blue * 8);
  }

  lemma Bits4444(alpha: nat, red: nat, green: nat, blue: nat)
    requires alpha < 0x10 && red < 0x10 && green < 0x10 && blue < 0x10
    ensures var c := Argb(alpha * 0x10, red * 0x10, green * 0x10, blue * 0x10);
      Alpha(c) / 0x10 == alpha && Red(c) / 0x10 == red && Green(c) / 0x10 == green && Blue(c) / 0x10 == blue
  {
    hide Argb, Alpha, Red, Green, Blue;
    Channels(alpha * 0x10, red * 0x10, green * 0x10, blue * 0x10);
  }

  /** A 5-6-5 texel loses nothing: its channels give it back. */
  lemma Unpack565Lossless(raw: nat)
    requires raw < 0x1_0000
    ensures var c := UnpackTexel(raw, 1); Red(c) / 8 * 0x800 + Green(c) / 4 * 0x20 + Blue(c) / 8 == raw
  {
    hide Argb, Red, Green, Blue;
    Bits565(raw / 0x800 % 0x20, raw / 0x20 % 0x40, raw % 0x20);
    Split565(raw);
  }

  /** Neither does a 4-4-4-4 texel. */
  lemma Unpack4444Lossless(raw: nat)
    requires raw < 0x1_0000
    ensures var c := UnpackTexel(raw, 3);
      Alpha(c) / 0x10 * 0x1000 + Red(c) / 0x10 * 0x100 + Green(c) / 0x10 * 0x10 + Blue(c) / 0x10 == raw
  {
    hide Argb, Alpha, Red, Green, Blue;
    Bits4444(raw / 0x1000 % 0x10, raw / 0x100 % 0x10, raw / 0x10 % 0x10, raw % 0x10);
    Split4444(raw);
  }

  lemma Split565(raw: nat)
    requires raw < 0x1_0000
    ensures raw / 0x800 % 0x20 * 0x800 + raw / 0x20 % 0x40 * 0x20 + raw % 0x20 == raw
  {
    assert raw / 0x20 / 0x40 == raw / 0x800;
  }

  lemma Split4444(raw: nat)
    requires raw < 0x1_0000
    ensures raw / 0x1000 % 0x10 * 0x1000 + raw / 0x100 % 0x10 * 0x100 + raw / 0x10 % 0x10 * 0x10 + raw % 0x10 == raw
  {
    assert raw / 0x10 / 0x10 == raw / 0x100;
    assert raw / 0x100 / 0x10 == raw / 0x1000;
  }

  /** The color of the texel at `at`, or its palette entry. */
  function Fetched(s: Sampler, at: nat): nat
    requires at + s.bytesPerPixel <= |s.source| && |s.palette| == 256
    requires s.kind == PALETTED ==> s.bytesPerPixel == 1
  {
    if s.kind == PALETTED then s.palette[s.source[at]]
    else UnpackTexel(LittleEndian(s.source[at..at + s.bytesPerPixel]), s.kind)
  }

  /** Fetch a texel; coordinates outside are clamped. */
  method FetchTexel(s: Sampler, x: int, y: int) returns (r: nat)
    requires ValidSampler(s)
    ensures forall a, b :: Logs(s, a, b) ==>
      var at := Offset(s, Clamp(x, s.width), Clamp(y, s.height), a, b);
      at + s.bytesPerPixel <= |s.source|
      && r == Fetched(s, at)
  {
    hide Index, Pow2, LittleEndian, UnpackTexel;
    var cx, cy := Clamp(x, s.width), Clamp(y, s.height);
    var at, logWidth, logHeight := 0, 0, 0;
    if s.swizzled {
      logWidth := IntegerLog2(s.width);
      logHeight := IntegerLog2(s.height);
      var index := SwizzleTexelIndex(cx, cy, logWidth, logHeight);
      at := index * s.bytesPerPixel;
    } else {
      at := cy * s.pitch + cx * s.bytesPerPixel;
    }
    assert forall a, b :: Logs(s, a, b) ==> Offset(s, cx, cy, a, b) == at;
    ghost var a, b := logWidth, logHeight;
    assert Logs(s, a, b);
    TexelInside(s, cx, cy, a, b);
    if s.kind == PALETTED {
      return s.palette[s.source[at]];
    }
    return UnpackTexel(LittleEndian(s.source[at..at + s.bytesPerPixel]), s.kind);
  }
}
