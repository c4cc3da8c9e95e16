/** Textures by their color format: sizes, addresses and colors (nv2a_capture.py: texture_format_info,
    swizzle_texel_index, build_sampler, unpack_texel, fetch_texel). */
module TextureLaws {
  import opened Bytes
  import opened Numbers
  import opened Wrappers
  import opened PixelMemory
  import opened Swizzle

  // ---- Formats ----

  /** The formats by size, layout and kind. */
  lemma FormatsExactly(format: nat)
    ensures var info := TextureFormatInfo(format);
      && (info.Some? <==>
            format in {0x00, 0x02, 0x03, 0x04, 0x05, 0x06, 0x07, 0x0B, 0x10, 0x11, 0x12, 0x13, 0x19, 0x1A, 0x1C, 0x1E})
      && (info.Some? ==>
            var (bytes, kind, swizzled) := info.value;
            && (swizzled <==> format < 0x10)
            && bytes == (if format in {0x00, 0x0B, 0x13} then 1
                         else if format in {0x02, 0x03, 0x04, 0x05, 0x10, 0x11, 0x19} then 2
                         else 4)
            && (kind == 0 <==> bytes == 4) && (kind == 1 <==> format in {0x05, 0x11})
            && (kind == 2 <==> format in {0x02, 0x03, 0x10}) && (kind == 3 <==> format in {0x04, 0x19})
            && (kind == 4 <==> format in {0x00, 0x13}) && (kind == 5 <==> format == 0x0B))
  {
  }

  // ---- Colors ----

  /** A color: alpha, red, green and blue from the highest byte down. */
  function Color(alpha: nat, red: nat, green: nat, blue: nat): nat {
    alpha * 0x100_0000 + red * 0x1_0000 + green * 0x100 + blue
  }

  lemma ColorIs(alpha: nat, red: nat, green: nat, blue: nat)
    ensures Argb(alpha, red, green, blue) == Color(alpha, red, green, blue)
  {
  }

  /** The lowest five or four bits of a number, and the others. */
  lemma LowFive(high: nat, low: nat)
    requires low < 0x20
    ensures (high * 0x20 + low) / 0x20 == high && (high * 0x20 + low) % 0x20 == low
  {
  }

  lemma LowFour(high: nat, low: nat)
    requires low < 0x10
    ensures (high * 0x10 + low) / 0x10 == high && (high * 0x10 + low) % 0x10 == low
  {
  }

  lemma LowSix(high: nat, low: nat)
    requires low < 0x40
    ensures (high * 0x40 + low) % 0x40 == low && (high * 0x40 + low) / 0x40 == high
  {
  }

  /** A 5-6-5 texel: five bits of red, six of green, five of blue, opaque. */
  lemma Texel565(red: nat, green: nat, blue: nat)
    requires red < 0x20 && green < 0x40 && blue < 0x20
    ensures UnpackTexel(red * 0x800 + green * 0x20 + blue, 1) == Color(0xFF, 8 * red, 4 * green, 8 * blue)
  {
    var raw := red * 0x800 + green * 0x20 + blue;
    LowFive(red * 0x40 + green, blue);
    LowSix(red, green);
    assert raw / 0x800 == raw / 0x20 / 0x40;
    ColorIs(0xFF, 8 * red, 4 * green, 8 * blue);
  }

  /** A 5-5-5 texel: five bits of red, green and blue below a bit that is not used, opaque. */
  lemma Texel555(unused: nat, red: nat, green: nat, blue: nat)
    requires unused < 2 && red < 0x20 && green < 0x20 && blue < 0x20
    ensures UnpackTexel(unused * 0x8000 + red * 0x400 + green * 0x20 + blue, 2)
      == Color(0xFF, 8 * red, 8 * green, 8 * blue)
  {
    var raw := unused * 0x8000 + red * 0x400 + green * 0x20 + blue;
    LowFive(unused * 0x400 + red * 0x20 + green, blue);
    LowFive(unused * 0x20 + red, green);
    LowFive(unused, red);
    assert raw / 0x400 == raw / 0x20 / 0x20;
    ColorIs(0xFF, 8 * red, 8 * green, 8 * blue);
  }

  /** A 4-4-4-4 texel: four bits each of alpha, red, green and blue. */
  lemma Texel4444(alpha: nat, red: nat, green: nat, blue: nat)
    requires alpha < 0x10 && red < 0x10 && green < 0x10 && blue < 0x10
    ensures UnpackTexel(alpha * 0x1000 + red * 0x100 + green * 0x10 + blue, 3)
      == Color(16 * alpha, 16 * red, 16 * green, 16 * blue)
  {
    var raw := alpha * 0x1000 + red * 0x100 + green * 0x10 + blue;
    Nibbles(alpha, red, green, blue);
    ColorIs(16 * alpha, 16 * red, 16 * green, 16 * blue);
  }

  lemma Nibbles(alpha: nat, red: nat, green: nat, blue: nat)
    requires alpha < 0x10 && red < 0x10 && green < 0x10 && blue < 0x10
    ensures var raw := alpha * 0x1000 + red * 0x100 + green * 0x10 + blue;
      raw / 0x1000 % 0x10 == alpha && raw / 0x100 % 0x10 == red && raw / 0x10 % 0x10 == green && raw % 0x10 == blue
  {
    var raw := alpha * 0x1000 + red * 0x100 + green * 0x10 + blue;
    LowFour(alpha * 0x100 + red * 0x10 + green, blue);
    LowFour(alpha * 0x10 + red, green);
    LowFour(alpha, red);
    Shifts(raw);
  }

  lemma Shifts(raw: nat)
    ensures raw / 0x100 == raw / 0x10 / 0x10 && raw / 0x1000 == raw / 0x10 / 0x10 / 0x10
  {
    assert raw / 0x1000 == raw / 0x100 / 0x10;
  }

  /** A luminance texel: opaque grey. A 4-byte texel is a color as it is. */
  lemma TexelGrey(value: nat)
    requires value < 0x100
    ensures UnpackTexel(value, 4) == Color(0xFF, value, value, value)
  {
    ColorIs(0xFF, value, value, value);
  }

  lemma TexelWhole(alpha: nat, red: nat, green: nat, blue: nat)
    ensures UnpackTexel(Color(alpha, red, green, blue), 0) == Color(alpha, red, green, blue)
  {
  }

  lemma LittleEndian1(bytes: seq<byte>)
    requires |bytes| == 1
    ensures LittleEndian(bytes) == bytes[0]
  {
    assert LittleEndian(bytes[1..]) == 0;
  }

  /** The 16-bit number at `at`. */
  function Raw16(source: seq<byte>, at: nat): nat
    requires at + 2 <= |source|
  {
    source[at] as int + 0x100 * (source[at + 1] as int)
  }

  lemma LittleEndian2(bytes: seq<byte>)
    requires |bytes| == 2
    ensures LittleEndian(bytes) == Raw16(bytes, 0)
  {
    LittleEndian1(bytes[1..]);
  }

  lemma LittleEndian4(bytes: seq<byte>)
    requires |bytes| == 4
    ensures LittleEndian(bytes) == Color(bytes[3], bytes[2], bytes[1], bytes[0])
  {
    LittleEndian2(bytes[2..]);
    assert LittleEndian(bytes[1..]) == bytes[1] + 256 * LittleEndian(bytes[1..][1..]);
    assert bytes[1..][1..] == bytes[2..];
  }

  function Pack565(red: nat, green: nat, blue: nat): nat { red * 0x800 + green * 0x20 + blue }

  function Pack555(red: nat, green: nat, blue: nat): nat { red * 0x400 + green * 0x20 + blue }

  /** The color of a 5-6-5 texel. */
  ghost predicate Is565(raw: nat, r: nat) {
    forall red: nat, green: nat, blue: nat ::
      red < 0x20 && green < 0x40 && blue < 0x20 && Pack565(red, green, blue) == raw ==>
        r == Color(0xFF, 8 * red, 4 * green, 8 * blue)
  }

  /** The color of a 5-5-5 texel. */
  ghost predicate Is555(raw: nat, r: nat) {
    forall red: nat, green: nat, blue: nat ::
      red < 0x20 && green < 0x20 && blue < 0x20 && Pack555(red, green, blue) == raw % 0x8000 ==>
        r == Color(0xFF, 8 * red, 8 * green, 8 * blue)
  }

  lemma Unpacks565(raw: nat)
    ensures Is565(raw, UnpackTexel(raw, 1))
  {
    hide UnpackTexel, Color;
    forall red: nat, green: nat, blue: nat
      | red < 0x20 && green < 0x40 && blue < 0x20 && Pack565(red, green, blue) == raw
      ensures UnpackTexel(raw, 1) == Color(0xFF, 8 * red, 4 * green, 8 * blue)
    {
      Texel565(red, green, blue);
    }
  }

  lemma Unpacks555(raw: nat)
    requires raw < 0x1_0000
    ensures Is555(raw, UnpackTexel(raw, 2))
  {
    hide UnpackTexel, Color;
    forall red: nat, green: nat, blue: nat
      | red < 0x20 && green < 0x20 && blue < 0x20 && Pack555(red, green, blue) == raw % 0x8000
      ensures UnpackTexel(raw, 2) == Color(0xFF, 8 * red, 8 * green, 8 * blue)
    {
      assert raw == raw / 0x8000 * 0x8000 + red * 0x400 + green * 0x20 + blue;
      Texel555(raw / 0x8000, red, green, blue);
    }
  }

  lemma Unpacks4444(lo: nat, hi: nat)
    requires lo < 0x100 && hi < 0x100
    ensures UnpackTexel(lo + 0x100 * hi, 3) == Color(hi / 16 * 16, hi % 16 * 16, lo / 16 * 16, lo % 16 * 16)
  {
    hide UnpackTexel, Color;
    assert lo + 0x100 * hi == hi / 16 * 0x1000 + hi % 16 * 0x100 + lo / 16 * 0x10 + lo % 16;
    Texel4444(hi / 16, hi % 16, lo / 16, lo % 16);
  }

  /** The color of a texel of a texture, by its format and its bytes, the lowest first. */
  ghost predicate ColorOf(format: nat, source: seq<byte>, at: nat, palette: seq<nat>, r: nat)
    requires |palette| == 256
  {
    if format in {0x05, 0x11} then at + 2 <= |source| && Is565(Raw16(source, at), r)
    else if format in {0x02, 0x03, 0x10} then at + 2 <= |source| && Is555(Raw16(source, at), r)
    else if format in {0x04, 0x19} then
      at + 2 <= |source|
      && r == Color(source[at + 1] / 16 * 16, source[at + 1] % 16 * 16, source[at] / 16 * 16, source[at] % 16 * 16)
    else if format in {0x00, 0x13} then at < |source| && r == Color(0xFF, source[at], source[at], source[at])
    else if format == 0x0B then at < |source| && r == palette[source[at]]
    else at + 4 <= |source| && r == Color(source[at + 3], source[at + 2], source[at + 1], source[at])
  }

  lemma Fetched16(format: nat, s: Sampler, at: nat)
    requires at + 2 <= |s.source| && |s.palette| == 256 && s.bytesPerPixel == 2
    requires TextureFormatInfo(format) == Some((2, s.kind, s.swizzled))
    ensures s.kind != PALETTED && ColorOf(format, s.source, at, s.palette, Fetched(s, at))
  {
    hide UnpackTexel, LittleEndian, Color, Is565, Is555;
    FormatsExactly(format);
    var bytes := s.source[at..at + 2];
    LittleEndian2(bytes);
    var raw := Raw16(s.source, at);
    assert Raw16(bytes, 0) == raw;
    Unpacks565(raw);
    Unpacks555(raw);
    Unpacks4444(s.source[at], s.source[at + 1]);
  }

  /** Fetching gives the color by the format the sampler was built for. */
  lemma FetchedByFormat(t: Texture, obs: seq<Observation>, s: Sampler, at: nat)
    requires BuiltFrom(t, obs, Some(s)) && at + s.bytesPerPixel <= |s.source|
    ensures ValidSampler(s) && ColorOf(t.colorFormat, s.source, at, s.palette, Fetched(s, at))
  {
    hide UnpackTexel, LittleEndian, Color, ColorOf, NewestBytes, PaletteBytes, PaletteOf, FaultOf;
    BuiltLayout(t, obs, s);
    FormatsExactly(t.colorFormat);
    if s.bytesPerPixel == 2 {
      Fetched16(t.colorFormat, s, at);
    } else {
      FetchedOther(t.colorFormat, s, at);
    }
  }

  lemma FetchedOther(format: nat, s: Sampler, at: nat)
    requires at + s.bytesPerPixel <= |s.source| && |s.palette| == 256 && s.bytesPerPixel != 2
    requires TextureFormatInfo(format) == Some((s.bytesPerPixel, s.kind, s.swizzled))
    requires s.kind == PALETTED ==> s.bytesPerPixel == 1
    ensures ColorOf(format, s.source, at, s.palette, Fetched(s, at))
  {
    hide UnpackTexel, LittleEndian, Color;
    FormatsExactly(format);
    if s.bytesPerPixel == 1 {
      LittleEndian1(s.source[at..at + 1]);
      TexelGrey(s.source[at]);
    } else {
      var bytes := s.source[at..at + 4];
      LittleEndian4(bytes);
      TexelWhole(bytes[3], bytes[2], bytes[1], bytes[0]);
    }
  }

  lemma BuiltLayout(t: Texture, obs: seq<Observation>, s: Sampler)
    requires BuiltFrom(t, obs, Some(s))
    ensures ValidSampler(s) && TextureFormatInfo(t.colorFormat) == Some((s.bytesPerPixel, s.kind, s.swizzled))
  {
    hide TextureFormatInfo, Dimensions, Pitch, NewestBytes, PaletteBytes, PaletteOf, ValidSampler, RowBytes;
  }

  // ---- Addresses ----

  /** Bit `k` of a number. */
  function BitAt(n: nat, k: nat): nat {
    if k == 0 then n % 2 else BitAt(n / 2, k - 1)
  }

  lemma JoinBits(low: nat, rest: nat, k: nat)
    requires low < 2
    ensures BitAt(Join(low, rest), k) == if k == 0 then low else BitAt(rest, k - 1)
  {
    Joined(low, rest);
  }

  lemma {:induction false} OnlyX(x: nat, y: nat, a: nat, k: nat)
    requires k < a
    ensures BitAt(Index(x, y, a, 0), k) == BitAt(x, k)
    decreases a
  {
    hide Join, BitAt, Low, Half;
    JoinBits(Low(x), Index(Half(x), y, a - 1, 0), k);
    BitSteps(x, k);
    if k > 0 {
      OnlyX(Half(x), y, a - 1, k - 1);
    }
  }

  lemma {:induction false} OnlyY(x: nat, y: nat, b: nat, k: nat)
    requires k < b
    ensures BitAt(Index(x, y, 0, b), k) == BitAt(y, k)
    decreases b
  {
    hide Join, BitAt, Low, Half;
    JoinBits(Low(y), Index(x, Half(y), 0, b - 1), k);
    BitSteps(y, k);
    if k > 0 {
      OnlyY(x, Half(y), b - 1, k - 1);
    }
  }

  lemma BitSteps(n: nat, k: nat)
    ensures BitAt(n, k) == if k == 0 then Low(n) else BitAt(Half(n), k - 1)
  {
  }

  /** The swizzled index by its bits: those of x and y in turn, x first, as long as both have some,
      and then those of the longer one. */
  lemma {:induction false} BitsInterleave(x: nat, y: nat, a: nat, b: nat, k: nat)
    ensures var index, both := Index(x, y, a, b), if a < b then a else b;
      && (k < both ==> BitAt(index, 2 * k) == BitAt(x, k) && BitAt(index, 2 * k + 1) == BitAt(y, k))
      && (both <= k < a ==> BitAt(index, both + k) == BitAt(x, k))
      && (both <= k < b ==> BitAt(index, both + k) == BitAt(y, k))
    decreases a + b
  {
    hide Join, BitAt, Low, Half;
    if a == 0 {
      if k < b {
        OnlyY(x, y, b, k);
      }
    } else if b == 0 {
      if k < a {
        OnlyX(x, y, a, k);
      }
    } else {
      var rest := Index(Half(x), Half(y), a - 1, b - 1);
      var high := Join(Low(y), rest);
      var both := if a < b then a else b;
      BitSteps(x, k);
      BitSteps(y, k);
      JoinBits(Low(x), high, 2 * k);
      JoinBits(Low(x), high, 2 * k + 1);
      JoinBits(Low(y), rest, 2 * k);
      JoinBits(Low(x), high, both + k);
      if k > 0 {
        JoinBits(Low(y), rest, 2 * k - 1);
        JoinBits(Low(y), rest, both + k - 1);
        BitsInterleave(Half(x), Half(y), a - 1, b - 1, k - 1);
      }
    }
  }

  /** The place of a texel: its row and column in a linear texture, its index in a swizzled one;
      coordinates outside are moved to the nearest edge. */
  lemma PlaceExactly(s: Sampler, x: int, y: int, a: nat, b: nat)
    requires ValidSampler(s)
    ensures var cx, cy := Clamp(x, s.width), Clamp(y, s.height);
      && cx < s.width && cy < s.height
      && (0 <= x < s.width ==> cx == x) && (x < 0 ==> cx == 0) && (x >= s.width ==> cx == s.width - 1)
      && (0 <= y < s.height ==> cy == y) && (y < 0 ==> cy == 0) && (y >= s.height ==> cy == s.height - 1)
      && Offset(s, cx, cy, a, b) ==
        if s.swizzled then Index(cx, cy, a, b) * s.bytesPerPixel else s.pitch * cy + s.bytesPerPixel * cx
  {
    hide Index;
  }

  // ---- Samplers ----

  lemma {:induction false} ShiftedOne(n: nat)
    ensures Pow2(n + 1) == Pow2(n) + Pow2(n) && Pow2(0) == 1
  {
  }

  /** The size of a texture: powers of two, or for a linear one with an image rectangle its halves,
      the width in the high one; neither zero nor above 4096. */
  lemma DimensionsExactly(t: Texture, swizzled: bool)
    ensures var powers := swizzled || t.imageRect == 0;
      var width := if powers then Pow2(t.sizeU) else t.imageRect / 0x1_0000;
      var height := if powers then Pow2(t.sizeV) else t.imageRect % 0x1_0000;
      Dimensions(t, swizzled) ==
        if width in {0} || height in {0} || width > 4096 || height > 4096 then None else Some((width, height))
  {
    hide Pow2;
  }

  /** The bytes of a texture: rows one behind the other, of the pitch in the high half of the control
      word if the texture is linear and that is longer than a row. */
  lemma SourceExactly(t: Texture)
    ensures match Layout(t)
      case None =>
        TextureFormatInfo(t.colorFormat) == None
        || Dimensions(t, TextureFormatInfo(t.colorFormat).value.2) == None
      case Some(s) =>
        && TextureFormatInfo(t.colorFormat) == Some((s.bytesPerPixel, s.kind, s.swizzled))
        && Dimensions(t, s.swizzled) == Some((s.width, s.height))
        && SourceBytes(s) == (if s.swizzled then s.width * s.height * s.bytesPerPixel else s.pitch * s.height)
        && s.pitch >= s.width * s.bytesPerPixel
        && (!s.swizzled ==>
              var pitch := t.control1 / 0x1_0000 % 0x1_0000;
              s.pitch == if pitch > s.width * s.bytesPerPixel then pitch else s.width * s.bytesPerPixel)
  {
    hide TextureFormatInfo, Dimensions;
  }

  /** A palette: 256, 128, 64 or 32 entries by two bits of its state. */
  lemma EntriesExactly(state: nat)
    ensures EntryCount(state) * [1, 2, 4, 8][state / 4 % 4] == 256
  {
  }

  /** Where a palette is looked for: at a known base, with the state down to a multiple of 64 added;
      otherwise at the state down to a multiple of 16, then up to one, then down to one of 64, each
      but once. */
  lemma PlacesExactly(base: nat, state: nat)
    requires state < 0x1_0000_0000
    ensures var r := PaletteAddresses(base, state);
      if base != 0 then r == [base + state / 64 * 64]
      else
        var down, up, hardware := state / 16 * 16, (state + 15) % 0x1_0000_0000 / 16 * 16, state / 64 * 64;
        && r[0] == down && (up != down ==> |r| > 1 && r[1] == up)
        && hardware in r && (forall i :: 0 <= i < |r| ==> r[i] in {down, up, hardware})
        && (hardware !in {down, up} ==> r[|r| - 1] == hardware)
        && (forall i, j :: 0 <= i < j < |r| ==> r[i] != r[j])
  {
    hide AlignDown;
    Down(state, 64);
    Down(state, 16);
    Down((state + 15) % 0x1_0000_0000, 16);
    if base == 0 {
      DistinctPlaces(base, state);
    }
  }

  lemma DistinctPlaces(base: nat, state: nat)
    requires base == 0
    ensures var r := PaletteAddresses(base, state); forall i, j :: 0 <= i < j < |r| ==> r[i] != r[j]
  {
    hide AlignDown;
  }

  lemma Down(v: nat, unit: nat)
    requires unit > 0
    ensures AlignDown(v, unit) == v / unit * unit
  {
  }

  lemma {:induction false} FirstOfPlaces(obs: seq<Observation>, places: seq<nat>, size: nat)
    ensures var r := FirstCaptured(obs, places, size);
      && (r == None <==> forall i :: 0 <= i < |places| ==> NewestBytes(obs, places[i], size) == None)
      && (r != None ==>
            exists i :: 0 <= i < |places| && r == NewestBytes(obs, places[i], size)
                        && forall j :: 0 <= j < i ==> NewestBytes(obs, places[j], size) == None)
  {
    hide NewestBytes;
    if places != [] && NewestBytes(obs, places[0], size) == None {
      FirstOfPlaces(obs, places[1..], size);
      assert forall i :: 0 < i < |places| ==> places[1..][i - 1] == places[i];
      assert forall i :: 0 <= i < |places| - 1 ==> places[1..][i] == places[i + 1];
      var r := FirstCaptured(obs, places[1..], size);
      if r != None {
        var i :| 0 <= i < |places| - 1 && r == NewestBytes(obs, places[1..][i], size)
                 && forall j :: 0 <= j < i ==> NewestBytes(obs, places[1..][j], size) == None;
        assert r == NewestBytes(obs, places[i + 1], size);
        forall j | 0 <= j < i + 1
          ensures NewestBytes(obs, places[j], size) == None
        {
          assert j > 0 ==> places[j] == places[1..][j - 1];
        }
      }
    }
  }

  /** A palette of 1024 bytes, halved as often as two bits of its state say, is read at the first of
      these places at which all of it was captured. */
  lemma PaletteReadExactly(t: Texture, obs: seq<Observation>, size: nat)
    requires size * [1, 2, 4, 8][t.paletteState / 4 % 4] == 1024
    ensures var places := PaletteAddresses(t.paletteBase, t.paletteState);
      && (PaletteBytes(t, obs) == None <==>
            forall i :: 0 <= i < |places| ==> NewestBytes(obs, places[i], size) == None)
      && (PaletteBytes(t, obs) != None ==>
            exists i :: 0 <= i < |places| && PaletteBytes(t, obs) == NewestBytes(obs, places[i], size)
                        && forall j :: 0 <= j < i ==> NewestBytes(obs, places[j], size) == None)
  {
    PaletteSize(t.paletteState, size);
    hide NewestBytes, PaletteAddresses, EntryCount;
    FirstOfPlaces(obs, PaletteAddresses(t.paletteBase, t.paletteState), EntryCount(t.paletteState) * 4);
  }

  lemma PaletteSize(state: nat, size: nat)
    requires size * [1, 2, 4, 8][state / 4 % 4] == 1024
    ensures EntryCount(state) * 4 == size
  {
  }

  /** The entries of a palette: 4-byte colors in order, zero where there are none. */
  lemma PaletteExactly(raw: seq<byte>, count: nat, i: nat)
    requires i < 256
    ensures PaletteOf(raw, count)[i] ==
      if i < count && 4 * i + 4 <= |raw| then Color(raw[4 * i + 3], raw[4 * i + 2], raw[4 * i + 1], raw[4 * i]) else 0
  {
    hide LittleEndian, Color;
    if 4 * i + 4 <= |raw| {
      LittleEndian4(raw[4 * i..4 * i + 4]);
    }
  }

  /** Why a texture cannot be sampled: the first of unknown format, bad dimensions, source and palette
      that were not captured. */
  lemma FaultExactly(t: Texture, obs: seq<Observation>)
    ensures var fault := FaultOf(t, obs);
      var known := TextureFormatInfo(t.colorFormat).Some?;
      var sized := known && Dimensions(t, TextureFormatInfo(t.colorFormat).value.2).Some?;
      && (fault == Some(TextureFormat) <==> !known)
      && (fault == Some(TextureDimensions) <==> known && !sized)
      && (fault == Some(TextureInput) <==> sized && NewestBytes(obs, t.address, SourceBytes(Layout(t).value)) == None)
      && (fault == Some(PaletteInput) <==>
            sized && NewestBytes(obs, t.address, SourceBytes(Layout(t).value)).Some?
            && t.colorFormat == 0x0B && PaletteBytes(t, obs) == None)
  {
    hide Dimensions, NewestBytes, PaletteBytes, SourceBytes, Pitch;
    FormatsExactly(t.colorFormat);
  }
}
