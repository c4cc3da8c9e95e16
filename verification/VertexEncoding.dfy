/** Vertex-program instructions written out field by field, and the decoder as their inverse
    (nv2a_capture.py: VP_FIELDS, vp_field, vp_source). */
module VertexEncoding {
  import opened Numbers
  import opened VertexProgram

  // ---- Packed fields ----

  /** A field of a word: its value and its width in bits. */
  type Field = (nat, nat)

  /** The fields one behind the other, the last in the lowest bits. */
  function Packed(fs: seq<Field>): nat {
    if fs == [] then 0 else Packed(fs[..|fs| - 1]) * Pow2(fs[|fs| - 1].1) + fs[|fs| - 1].0
  }

  /** The bits below field `i`. */
  function Below(fs: seq<Field>, i: nat): nat
    requires i < |fs|
    decreases |fs| - i
  {
    if i == |fs| - 1 then 0 else fs[i + 1].1 + Below(fs, i + 1)
  }

  ghost predicate Fit(fs: seq<Field>) {
    forall i :: 0 <= i < |fs| ==> fs[i].0 < Pow2(fs[i].1)
  }

  lemma {:induction false} Pow2Sum(m: nat, n: nat)
    ensures Pow2(m + n) == Pow2(m) * Pow2(n)
    decreases n
  {
    if n > 0 {
      Pow2Sum(m, n - 1);
    }
  }

  lemma Quotient(x: nat, k: nat, q: nat, r: nat)
    requires k > 0 && r < k && x == q * k + r
    ensures x / k == q && x % k == r
  {
    var q', r' := x / k, x % k;
    assert x == q' * k + r';
    assert (q - q') * k == r' - r;
    SmallMultiple(k, q - q', r' - r);
  }

  lemma SmallMultiple(k: nat, d: int, r: int)
    requires d * k == r && r < k && r + k > 0
    ensures d == 0
  {
    Grows(k, d);
  }

  lemma Grows(k: nat, d: int)
    ensures k > 0 && d >= 1 ==> d * k >= k
    ensures k > 0 && d <= -1 ==> d * k + k <= 0
  {
  }

  /** Dividing in two steps. */
  lemma DivideTwice(p: nat, v: nat, a: nat, b: nat)
    requires a > 0 && b > 0 && v < a
    ensures a * b > 0 && (p * a + v) / (a * b) == p / b
  {
    var q, r := p / b, p % b;
    Positive(a, b);
    assert p == q * b + r;
    Regroup(q, b, r, a);
    Fits(r, b, a, v);
    Quotient(p * a + v, a * b, q, r * a + v);
  }

  lemma Positive(a: nat, b: nat)
    requires a > 0 && b > 0
    ensures a * b > 0
  {
  }

  lemma Regroup(q: nat, b: nat, r: nat, a: nat)
    ensures (q * b + r) * a == q * (a * b) + r * a
  {
    assert q * b * a == q * (a * b);
  }

  lemma Fits(r: nat, b: nat, a: nat, v: nat)
    requires r < b && v < a
    ensures 0 <= r * a + v < a * b
  {
    assert r * a + a == (r + 1) * a;
    Wider(r + 1, b, a);
  }

  lemma Wider(m: nat, n: nat, a: nat)
    requires m <= n
    ensures m * a <= a * n
  {
    assert a * n == m * a + (n - m) * a;
  }

  /** Decoding a field gives its value. */
  lemma {:induction false} FieldBack(fs: seq<Field>, i: nat)
    requires Fit(fs) && i < |fs|
    ensures Packed(fs) / Pow2(Below(fs, i)) % Pow2(fs[i].1) == fs[i].0
    decreases |fs|
  {
    hide Pow2;
    var n := |fs| - 1;
    var init, last := fs[..n], fs[n];
    var p := Packed(init);
    if i == n {
      assert Pow2(0) == 1 by { PowerOfNothing(); }
      Quotient(Packed(fs), Pow2(last.1), p, last.0);
    } else {
      FieldBack(init, i);
      BelowMore(fs, i);
      Pow2Sum(last.1, Below(init, i));
      DivideTwice(p, last.0, Pow2(last.1), Pow2(Below(init, i)));
    }
  }

  lemma PowerOfNothing()
    ensures Pow2(0) == 1
  {
  }

  lemma {:induction false} BelowMore(fs: seq<Field>, i: nat)
    requires i + 1 < |fs|
    ensures Below(fs, i) == fs[|fs| - 1].1 + Below(fs[..|fs| - 1], i)
    decreases |fs| - i
  {
    if i + 2 < |fs| {
      BelowMore(fs, i + 1);
    }
  }

  /** The bits of all fields. */
  function Width(fs: seq<Field>): nat {
    if fs == [] then 0 else fs[0].1 + Below(fs, 0)
  }

  lemma WidthMore(fs: seq<Field>)
    requires fs != []
    ensures Width(fs) == Width(fs[..|fs| - 1]) + fs[|fs| - 1].1
  {
    if |fs| > 1 {
      BelowMore(fs, 0);
    }
  }

  lemma {:induction false} PackedSmall(fs: seq<Field>)
    requires Fit(fs)
    ensures Packed(fs) < Pow2(Width(fs))
    decreases |fs|
  {
    hide Pow2, Width;
    if fs == [] {
      PowerOfNothing();
      NoWidth();
    } else {
      var init, last := fs[..|fs| - 1], fs[|fs| - 1];
      PackedSmall(init);
      WidthMore(fs);
      Pow2Sum(Width(init), last.1);
      Appended(Packed(init), Pow2(Width(init)), last.0, Pow2(last.1));
    }
  }

  lemma NoWidth()
    ensures Width([]) == 0
  {
  }

  lemma Appended(p: nat, m: nat, v: nat, k: nat)
    requires p < m && v < k
    ensures p * k + v < m * k
  {
    assert (p + 1) * k <= m * k;
  }

  // ---- Instructions ----

  datatype Fields = Fields(mac: nat, ilu: nat, constant: nat, vertex: nat, a: Source, b: Source, c: Source,
                           macMask: nat, iluMask: nat, outputRegister: nat, outputMask: nat, outputBank: nat,
                           outputAddress: nat, outputMux: nat, relative: nat, final: nat)

  ghost predicate ValidSource(s: Source) {
    s.mux < 4 && s.register < 16 && |s.swizzle| == 4 && forall k :: 0 <= k < 4 ==> s.swizzle[k] < 4
  }

  ghost predicate Valid(f: Fields) {
    && f.mac < 16 && f.ilu < 8 && f.constant < 256 && f.vertex < 16
    && ValidSource(f.a) && ValidSource(f.b) && ValidSource(f.c)
    && f.macMask < 16 && f.iluMask < 16 && f.outputRegister < 16 && f.outputMask < 16 && f.outputBank < 2
    && f.outputAddress < 256 && f.outputMux < 2 && f.relative < 2 && f.final < 2
  }

  function Bit(b: bool): nat { if b then 1 else 0 }

  /** The second word, from bit 27 down: operations, constant, vertex attribute, negation and swizzle of A. */
  function Word1(f: Fields): seq<Field>
    requires |f.a.swizzle| == 4
  {
    [(f.ilu, 3), (f.mac, 4), (f.constant, 8), (f.vertex, 4), (Bit(f.a.negate), 1),
     (f.a.swizzle[0], 2), (f.a.swizzle[1], 2), (f.a.swizzle[2], 2), (f.a.swizzle[3], 2)]
  }

  /** The third word: the rest of A, B, and the start of C. */
  function Word2(f: Fields): seq<Field>
    requires |f.b.swizzle| == 4 && |f.c.swizzle| == 4
  {
    [(f.a.register, 4), (f.a.mux, 2), (Bit(f.b.negate), 1),
     (f.b.swizzle[0], 2), (f.b.swizzle[1], 2), (f.b.swizzle[2], 2), (f.b.swizzle[3], 2),
     (f.b.register, 4), (f.b.mux, 2), (Bit(f.c.negate), 1),
     (f.c.swizzle[0], 2), (f.c.swizzle[1], 2), (f.c.swizzle[2], 2), (f.c.swizzle[3], 2), (f.c.register / 4, 2)]
  }

  /** The fourth word: the rest of C, and where the results go. */
  function Word3(f: Fields): seq<Field> {
    [(f.c.register % 4, 2), (f.c.mux, 2), (f.macMask, 4), (f.outputRegister, 4), (f.iluMask, 4), (f.outputMask, 4),
     (f.outputBank, 1), (f.outputAddress, 8), (f.outputMux, 1), (f.relative, 1), (f.final, 1)]
  }

  lemma Powers()
    ensures Pow2(0) == 1 && Pow2(1) == 2 && Pow2(2) == 4 && Pow2(3) == 8 && Pow2(4) == 16 && Pow2(8) == 256
  {
  }

  lemma FieldsFit(f: Fields)
    requires Valid(f)
    ensures Fit(Word1(f)) && Fit(Word2(f)) && Fit(Word3(f))
  {
    hide Pow2;
    Powers();
  }

  lemma Low1(f: Fields)
    requires |f.a.swizzle| == 4
    ensures var fs := Word1(f);
      && Below(fs, 8) == 0 && Below(fs, 7) == 2 && Below(fs, 6) == 4 && Below(fs, 5) == 6 && Below(fs, 4) == 8
      && Below(fs, 3) == 9 && Below(fs, 2) == 13 && Below(fs, 1) == 21 && Below(fs, 0) == 25 && Width(fs) == 28
  {
    var fs := Word1(f);
    assert Below(fs, 8) == 0;
    assert Below(fs, 7) == 2;
    assert Below(fs, 6) == 4;
    assert Below(fs, 5) == 6;
    assert Below(fs, 4) == 8;
    assert Below(fs, 3) == 9;
    assert Below(fs, 2) == 13;
    assert Below(fs, 1) == 21;
  }

  lemma Low2(f: Fields)
    requires |f.b.swizzle| == 4 && |f.c.swizzle| == 4
    ensures var fs := Word2(f);
      && Below(fs, 14) == 0 && Below(fs, 13) == 2 && Below(fs, 12) == 4 && Below(fs, 11) == 6 && Below(fs, 10) == 8
      && Below(fs, 9) == 10 && Below(fs, 8) == 11 && Below(fs, 7) == 13 && Below(fs, 6) == 17 && Below(fs, 5) == 19
      && Below(fs, 4) == 21 && Below(fs, 3) == 23 && Below(fs, 2) == 25 && Below(fs, 1) == 26 && Below(fs, 0) == 28
      && Width(fs) == 32
  {
    var fs := Word2(f);
    assert Below(fs, 14) == 0;
    assert Below(fs, 13) == 2;
    assert Below(fs, 12) == 4;
    assert Below(fs, 11) == 6;
    assert Below(fs, 10) == 8;
    assert Below(fs, 9) == 10;
    assert Below(fs, 8) == 11;
    assert Below(fs, 7) == 13;
    assert Below(fs, 6) == 17;
    assert Below(fs, 5) == 19;
    assert Below(fs, 4) == 21;
    assert Below(fs, 3) == 23;
    assert Below(fs, 2) == 25;
    assert Below(fs, 1) == 26;
  }

  lemma Low3(f: Fields)
    ensures var fs := Word3(f);
      && Below(fs, 10) == 0 && Below(fs, 9) == 1 && Below(fs, 8) == 2 && Below(fs, 7) == 3 && Below(fs, 6) == 11
      && Below(fs, 5) == 12 && Below(fs, 4) == 16 && Below(fs, 3) == 20 && Below(fs, 2) == 24 && Below(fs, 1) == 28
      && Below(fs, 0) == 30 && Width(fs) == 32
  {
    var fs := Word3(f);
    assert Below(fs, 10) == 0;
    assert Below(fs, 9) == 1;
    assert Below(fs, 8) == 2;
    assert Below(fs, 7) == 3;
    assert Below(fs, 6) == 11;
    assert Below(fs, 5) == 12;
    assert Below(fs, 4) == 16;
    assert Below(fs, 3) == 20;
    assert Below(fs, 2) == 24;
    assert Below(fs, 1) == 28;
  }

  lemma WordPowers()
    ensures Pow2(28) < Pow2(32) == 0x1_0000_0000
  {
    assert Pow2(8) == 256;
    Pow2Sum(8, 8);
    Pow2Sum(16, 16);
    Pow2Sum(28, 4);
  }

  lemma WordFits(f: Fields)
    requires Valid(f)
    ensures Packed(Word1(f)) < 0x1_0000_0000 && Packed(Word2(f)) < 0x1_0000_0000 && Packed(Word3(f)) < 0x1_0000_0000
  {
    hide Pow2, Word1, Word2, Word3, Packed, Width;
    FieldsFit(f);
    Low1(f);
    Low2(f);
    Low3(f);
    WordPowers();
    PackedSmall(Word1(f));
    PackedSmall(Word2(f));
    PackedSmall(Word3(f));
  }

  /** The four words of an instruction; the first is not used. */
  ghost function Encode(f: Fields): (i: Instruction)
    requires Valid(f)
  {
    WordFits(f);
    [0, Packed(Word1(f)), Packed(Word2(f)), Packed(Word3(f))]
  }

  /** A field is where its word has it. */
  lemma FieldAt(fs: seq<Field>, i: nat, start: nat, word: Word)
    requires Fit(fs) && i < |fs| && Below(fs, i) == start && word == Packed(fs)
    ensures Bits(word, start, fs[i].1) == fs[i].0
  {
    hide Pow2, Packed, Below;
    FieldBack(fs, i);
  }

  lemma Decode1(f: Fields)
    requires Valid(f)
    ensures var i := Encode(f);
      && Ilu(i) == f.ilu && Mac(i) == f.mac && Constant(i) == f.constant && Vertex(i) == f.vertex
      && Bits(i[1], 8, 1) == Bit(f.a.negate) && Bits(i[1], 6, 2) == f.a.swizzle[0] && Bits(i[1], 4, 2) == f.a.swizzle[1]
      && Bits(i[1], 2, 2) == f.a.swizzle[2] && Bits(i[1], 0, 2) == f.a.swizzle[3]
  {
    hide Pow2, Packed, Below, Bits, Fit, Width;
    var fs, word := Word1(f), Encode(f)[1];
    FieldsFit(f);
    Low1(f);
    FieldAt(fs, 0, 25, word);
    FieldAt(fs, 1, 21, word);
    FieldAt(fs, 2, 13, word);
    FieldAt(fs, 3, 9, word);
    FieldAt(fs, 4, 8, word);
    FieldAt(fs, 5, 6, word);
    FieldAt(fs, 6, 4, word);
    FieldAt(fs, 7, 2, word);
    FieldAt(fs, 8, 0, word);
  }

  lemma Decode2(f: Fields)
    requires Valid(f)
    ensures var w := Encode(f)[2];
      && Bits(w, 28, 4) == f.a.register && Bits(w, 26, 2) == f.a.mux && Bits(w, 25, 1) == Bit(f.b.negate)
      && Bits(w, 23, 2) == f.b.swizzle[0] && Bits(w, 21, 2) == f.b.swizzle[1] && Bits(w, 19, 2) == f.b.swizzle[2]
      && Bits(w, 17, 2) == f.b.swizzle[3] && Bits(w, 13, 4) == f.b.register && Bits(w, 11, 2) == f.b.mux
      && Bits(w, 10, 1) == Bit(f.c.negate) && Bits(w, 8, 2) == f.c.swizzle[0] && Bits(w, 6, 2) == f.c.swizzle[1]
      && Bits(w, 4, 2) == f.c.swizzle[2] && Bits(w, 2, 2) == f.c.swizzle[3] && Bits(w, 0, 2) == f.c.register / 4
  {
    hide Pow2, Packed, Below, Bits, Fit, Width;
    var fs, word := Word2(f), Encode(f)[2];
    FieldsFit(f);
    Low2(f);
    FieldAt(fs, 0, 28, word);
    FieldAt(fs, 1, 26, word);
    FieldAt(fs, 2, 25, word);
    FieldAt(fs, 3, 23, word);
    FieldAt(fs, 4, 21, word);
    FieldAt(fs, 5, 19, word);
    FieldAt(fs, 6, 17, word);
    FieldAt(fs, 7, 13, word);
    FieldAt(fs, 8, 11, word);
    FieldAt(fs, 9, 10, word);
    FieldAt(fs, 10, 8, word);
    FieldAt(fs, 11, 6, word);
    FieldAt(fs, 12, 4, word);
    FieldAt(fs, 13, 2, word);
    FieldAt(fs, 14, 0, word);
  }

  lemma Decode3(f: Fields)
    requires Valid(f)
    ensures var i := Encode(f);
      && Bits(i[3], 30, 2) == f.c.register % 4 && Bits(i[3], 28, 2) == f.c.mux && MacMask(i) == f.macMask
      && OutputRegister(i) == f.outputRegister && IluMask(i) == f.iluMask && OutputMask(i) == f.outputMask
      && OutputBank(i) == f.outputBank && OutputAddress(i) == f.outputAddress && OutputMux(i) == f.outputMux
      && Relative(i) == f.relative && Final(i) == f.final
  {
    hide Pow2, Packed, Below, Bits, Fit, Width;
    var fs, word := Word3(f), Encode(f)[3];
    FieldsFit(f);
    Low3(f);
    FieldAt(fs, 0, 30, word);
    FieldAt(fs, 1, 28, word);
    FieldAt(fs, 2, 24, word);
    FieldAt(fs, 3, 20, word);
    FieldAt(fs, 4, 16, word);
    FieldAt(fs, 5, 12, word);
    FieldAt(fs, 6, 11, word);
    FieldAt(fs, 7, 3, word);
    FieldAt(fs, 8, 2, word);
    FieldAt(fs, 9, 1, word);
    FieldAt(fs, 10, 0, word);
  }

  /** Decoding an instruction gives back its fields: operations, constant, attribute, operands, masks,
      output and flags. */
  lemma DecodeEncode(f: Fields)
    requires Valid(f)
    ensures var i := Encode(f);
      && Mac(i) == f.mac && Ilu(i) == f.ilu && Constant(i) == f.constant && Vertex(i) == f.vertex
      && VpSource(i, A) == f.a && VpSource(i, B) == f.b && VpSource(i, C) == f.c
      && MacMask(i) == f.macMask && IluMask(i) == f.iluMask && OutputRegister(i) == f.outputRegister
      && OutputMask(i) == f.outputMask && OutputBank(i) == f.outputBank && OutputAddress(i) == f.outputAddress
      && OutputMux(i) == f.outputMux && Relative(i) == f.relative && Final(i) == f.final
  {
    hide Bits, Encode, Mac, Ilu, Constant, Vertex, MacMask, IluMask, OutputRegister, OutputMask, OutputBank,
         OutputAddress, OutputMux, Relative, Final;
    Decode1(f);
    Decode2(f);
    Decode3(f);
    var i := Encode(f);
    assert VpSource(i, A).swizzle == f.a.swizzle;
    assert VpSource(i, B).swizzle == f.b.swizzle;
    assert VpSource(i, C).swizzle == f.c.swizzle;
  }
}
