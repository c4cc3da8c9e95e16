/** What vertex programs compute: every operation by a law about the runs of programs that use it
    (nv2a_capture.py: execute_vertex_program). */
module VertexOperations {
  import opened Numbers
  import opened Wrappers
  import opened VertexProgram
  import opened VertexEncoding

  // ---- Operands ----

  ghost predicate Readable(s: Source) {
    ValidSource(s) && 1 <= s.mux <= 3
  }

  /** Component `k` of an operand: a register, the instruction's attribute or its constant, taken
      through the swizzle, and negated if asked. */
  ghost function Taken(f: Fields, s: Source, m: Machine, inputs: seq<Vec4>, constants: seq<real>, k: nat): real
    requires Valid(f) && Readable(s) && m.Valid() && InputsOk(inputs, constants) && k < 4
  {
    var j := s.swizzle[k];
    var index := f.constant + if f.relative == 1 then m.address else 0;
    var value :=
      if s.mux == 1 then m.registers[if s.register < 12 then s.register else 12][j]
      else if s.mux == 2 then inputs[f.vertex][j]
      else constants[4 * (if index < 0 then 0 else if index > 191 then 191 else index) + j];
    if s.negate then -value else value
  }

  lemma OperandTaken(f: Fields, name: Name, m: Machine, inputs: seq<Vec4>, constants: seq<real>)
    requires Valid(f) && m.Valid() && InputsOk(inputs, constants)
    ensures var s := match name case A => f.a case B => f.b case C => f.c;
      var r := ReadSource(Encode(f), name, m, inputs, constants);
      && (r.Some? <==> s.mux != 0)
      && (Readable(s) ==> r.Some? && forall k: nat :: k < 4 ==> r.value[k] == Taken(f, s, m, inputs, constants, k))
  {
    hide Encode, VpSource, Constant, Relative, Vertex, Operand, Taken;
    DecodeEncode(f);
    var i, s := Encode(f), match name case A => f.a case B => f.b case C => f.c;
    assert VpSource(i, name) == s;
    OperandRead(f, s, m, inputs, constants);
    var value := Operand(i, s, m, inputs, constants);
    if Readable(s) {
      Swizzled(s, value.value);
    }
  }

  lemma Swizzled(s: Source, v: Vec4)
    requires ValidSource(s)
    ensures var u := seq(4, k requires 0 <= k < 4 => v[s.swizzle[k]]);
      forall k: nat :: k < 4 ==>
        u[k] == v[s.swizzle[k]] && seq(4, j requires 0 <= j < 4 => -u[j])[k] == -v[s.swizzle[k]]
  {
  }

  lemma OperandRead(f: Fields, s: Source, m: Machine, inputs: seq<Vec4>, constants: seq<real>)
    requires Valid(f) && ValidSource(s) && m.Valid() && InputsOk(inputs, constants)
    ensures var r := Operand(Encode(f), s, m, inputs, constants);
      && (r.Some? <==> s.mux != 0)
      && (Readable(s) ==> forall k: nat :: k < 4 ==>
            Taken(f, s, m, inputs, constants, k)
            == if s.negate then -r.value[s.swizzle[k]] else r.value[s.swizzle[k]])
  {
    hide Encode, Constant, Relative, Vertex, Taken, Operand;
    DecodeFields(f);
    OperandTakes(Encode(f), f, s, m, inputs, constants);
  }

  lemma DecodeFields(f: Fields)
    requires Valid(f)
    ensures Constant(Encode(f)) == f.constant && Relative(Encode(f)) == f.relative && Vertex(Encode(f)) == f.vertex
  {
    hide Encode, Constant, Relative, Vertex;
    DecodeEncode(f);
  }

  lemma OperandTakes(i: Instruction, f: Fields, s: Source, m: Machine, inputs: seq<Vec4>, constants: seq<real>)
    requires Valid(f) && ValidSource(s) && m.Valid() && InputsOk(inputs, constants)
    requires Constant(i) == f.constant && Relative(i) == f.relative && Vertex(i) == f.vertex
    ensures var r := Operand(i, s, m, inputs, constants);
      && (r.Some? <==> s.mux != 0)
      && (Readable(s) ==> forall k: nat :: k < 4 ==>
            Taken(f, s, m, inputs, constants, k)
            == if s.negate then -r.value[s.swizzle[k]] else r.value[s.swizzle[k]])
  {
    hide Constant, Relative, Vertex, Taken, Clamp;
    if s.mux == 3 {
      ConstantTaken(f, s, m, inputs, constants);
    } else if s.mux != 0 {
      VectorTaken(f, s, m, inputs, constants);
    }
  }

  lemma VectorTaken(f: Fields, s: Source, m: Machine, inputs: seq<Vec4>, constants: seq<real>)
    requires Valid(f) && Readable(s) && s.mux != 3 && m.Valid() && InputsOk(inputs, constants)
    ensures var r := if s.mux == 1 then m.registers[Min(s.register, 12)] else inputs[f.vertex];
      forall k: nat :: k < 4 ==>
        Taken(f, s, m, inputs, constants, k) == if s.negate then -r[s.swizzle[k]] else r[s.swizzle[k]]
  {
  }

  lemma ConstantTaken(f: Fields, s: Source, m: Machine, inputs: seq<Vec4>, constants: seq<real>)
    requires Valid(f) && Readable(s) && s.mux == 3 && m.Valid() && InputsOk(inputs, constants)
    ensures var c := Clamp(f.constant + (if f.relative != 0 then m.address else 0), 0, 191);
      var r := constants[c * 4..c * 4 + 4];
      forall k: nat :: k < 4 ==>
        Taken(f, s, m, inputs, constants, k) == if s.negate then -r[s.swizzle[k]] else r[s.swizzle[k]]
  {
  }

  // ---- One instruction ----

  /** The instruction is supported. */
  ghost predicate Runs(f: Fields) {
    && Valid(f) && f.mac in {0, 1, 2, 3, 4, 5, 7, 13} && f.ilu in {0, 1, 2, 3}
    && (f.mac != 0 ==> Readable(f.a)) && (f.mac in {2, 4, 5, 7} ==> Readable(f.b))
    && (f.mac in {3, 4} || f.ilu != 0 ==> Readable(f.c))
    && (f.outputMask != 0 ==> f.outputBank == 1 && f.outputAddress in {0, 3, 4, 5, 6, 9, 10, 11, 12})
  }

  lemma RunsSupported(f: Fields)
    requires Runs(f)
    ensures Supported(Encode(f))
  {
    hide Encode, VpSource, Mac, Ilu, OutputMask, OutputBank, OutputAddress;
    DecodeEncode(f);
  }

  /** The operands of an instruction, zero where they are not read. */
  ghost function Read(f: Fields, name: Name, m: Machine, inputs: seq<Vec4>, constants: seq<real>): Vec4
    requires Valid(f) && m.Valid() && InputsOk(inputs, constants)
  {
    OrZero(ReadSource(Encode(f), name, m, inputs, constants))
  }

  lemma ReadTaken(f: Fields, m: Machine, inputs: seq<Vec4>, constants: seq<real>)
    requires Valid(f) && m.Valid() && InputsOk(inputs, constants)
    ensures forall k: nat :: k < 4 && Readable(f.a) ==>
      Read(f, A, m, inputs, constants)[k] == Taken(f, f.a, m, inputs, constants, k)
    ensures forall k: nat :: k < 4 && Readable(f.b) ==>
      Read(f, B, m, inputs, constants)[k] == Taken(f, f.b, m, inputs, constants, k)
    ensures forall k: nat :: k < 4 && Readable(f.c) ==>
      Read(f, C, m, inputs, constants)[k] == Taken(f, f.c, m, inputs, constants, k)
  {
    hide Encode, ReadSource, Taken;
    OperandTaken(f, A, m, inputs, constants);
    OperandTaken(f, B, m, inputs, constants);
    OperandTaken(f, C, m, inputs, constants);
  }

  /** A supported instruction goes on with, or ends on, what it executes. */
  lemma StepExecutes(f: Fields, m: Machine, inputs: seq<Vec4>, constants: seq<real>) returns (after: Machine)
    requires Runs(f) && m.Valid() && InputsOk(inputs, constants)
    ensures after.Valid()
    ensures Execute(Encode(f), m, Read(f, A, m, inputs, constants), Read(f, B, m, inputs, constants),
                    Read(f, C, m, inputs, constants)) == Some(after)
    ensures Step(Encode(f), m, inputs, constants) ==
      if f.final == 1 then Done(after.registers[12], after.colors, after.texcoords) else Next(after)
  {
    hide Encode, Supported, Execute, ReadSource, OrZero, UsedSources, Mac, Ilu;
    RunsSupported(f);
    DecodeEncode(f);
    SupportedNeverStuck(Encode(f), m, inputs, constants);
    after := Execute(Encode(f), m, Read(f, A, m, inputs, constants), Read(f, B, m, inputs, constants),
                     Read(f, C, m, inputs, constants)).value;
  }

  /** Component `k` of a mask: bit 3 is for x, bit 0 for w. */
  predicate Has(mask: nat, k: nat) {
    (if k == 0 then mask / 8 else if k == 1 then mask / 4 else if k == 2 then mask / 2 else mask) % 2 == 1
  }

  /** What a masked write leaves. */
  ghost predicate MaskedInto(before: Vec4, value: Vec4, mask: nat, after: Vec4) {
    forall k: nat :: k < 4 ==> after[k] == if Has(mask, k) then value[k] else before[k]
  }

  lemma WritesMasked(before: Vec4, value: Vec4, mask: nat)
    ensures MaskedInto(before, value, mask, WriteMasked(before, value, mask))
  {
    assert Pow2(3) == 8 && Pow2(2) == 4 && Pow2(1) == 2 && Pow2(0) == 1;
  }

  /** What the multiply-accumulate operations compute. */
  ghost predicate MacComputes(mac: nat, a: Vec4, b: Vec4, c: Vec4, r: Vec4) {
    match mac
    case 1 => r == a
    case 2 => r[0] == a[0] * b[0] && r[1] == a[1] * b[1] && r[2] == a[2] * b[2] && r[3] == a[3] * b[3]
    case 3 => r[0] == a[0] + c[0] && r[1] == a[1] + c[1] && r[2] == a[2] + c[2] && r[3] == a[3] + c[3]
    case 4 =>
      && r[0] == a[0] * b[0] + c[0] && r[1] == a[1] * b[1] + c[1]
      && r[2] == a[2] * b[2] + c[2] && r[3] == a[3] * b[3] + c[3]
    case 5 => r[0] == r[1] == r[2] == r[3] == a[0] * b[0] + a[1] * b[1] + a[2] * b[2]
    case 7 => r[0] == r[1] == r[2] == r[3] == a[0] * b[0] + a[1] * b[1] + a[2] * b[2] + a[3] * b[3]
    case _ => false
  }

  /** Only these operations compute something, and what they compute. */
  lemma MacValue(mac: nat, a: Vec4, b: Vec4, c: Vec4)
    ensures MacResult(mac, a, b, c).Some? <==> mac in {1, 2, 3, 4, 5, 7}
    ensures MacResult(mac, a, b, c).Some? ==> MacComputes(mac, a, b, c, MacResult(mac, a, b, c).value)
  {
    hide MacComputes;
    match mac {
      case 1 => Copies(a, b, c);
      case 2 => Multiplies(a, b, c);
      case 3 => Adds(a, b, c);
      case 4 => MultipliesAndAdds(a, b, c);
      case 5 => DotsThree(a, b, c);
      case 7 => DotsFour(a, b, c);
      case _ =>
    }
  }

  lemma Copies(a: Vec4, b: Vec4, c: Vec4)
    ensures MacComputes(1, a, b, c, MacResult(1, a, b, c).value)
  {
  }

  lemma Multiplies(a: Vec4, b: Vec4, c: Vec4)
    ensures MacComputes(2, a, b, c, MacResult(2, a, b, c).value)
  {
  }

  lemma Adds(a: Vec4, b: Vec4, c: Vec4)
    ensures MacComputes(3, a, b, c, MacResult(3, a, b, c).value)
  {
  }

  lemma MultipliesAndAdds(a: Vec4, b: Vec4, c: Vec4)
    ensures MacComputes(4, a, b, c, MacResult(4, a, b, c).value)
  {
  }

  lemma DotsThree(a: Vec4, b: Vec4, c: Vec4)
    ensures MacComputes(5, a, b, c, MacResult(5, a, b, c).value)
  {
  }

  lemma DotsFour(a: Vec4, b: Vec4, c: Vec4)
    ensures MacComputes(7, a, b, c, MacResult(7, a, b, c).value)
  {
  }

  /** What the scalar operations compute: a copy, or in every component the reciprocal of x, which is
      zero for zero, and 2^64 or -2^64 nearer to zero than 2^-64 when clamped. */
  ghost predicate IluComputes(ilu: nat, c: Vec4, r: Vec4) {
    var big := 18446744073709551616.0;
    match ilu
    case 1 => r == c
    case 2 => r[0] == r[1] == r[2] == r[3] && if c[0] == 0.0 then r[0] == 0.0 else r[0] * c[0] == 1.0
    case 3 =>
      && r[0] == r[1] == r[2] == r[3]
      && if 0.0 <= c[0] && c[0] * big < 1.0 then r[0] == big
         else if c[0] < 0.0 && c[0] * big > -1.0 then r[0] == -big
         else r[0] * c[0] == 1.0
    case _ => false
  }

  lemma IluValue(ilu: nat, c: Vec4)
    ensures IluResult(ilu, c).Some? <==> ilu in {1, 2, 3}
    ensures IluResult(ilu, c).Some? ==> IluComputes(ilu, c, IluResult(ilu, c).value)
  {
  }

  // ---- What an instruction changes ----

  /** A vector register or output is `mask`-written with `value`, or left as it is. */
  ghost predicate Becomes(written: bool, before: Vec4, value: Vec4, mask: nat, after: Vec4) {
    if written then MaskedInto(before, value, mask, after) else after == before
  }

  /** `after` is `before` with register `register` written under `mask` and, if `output`, the output
      `address` written under `outputMask`: 0 is the position, 3 and 4 the colors, 5 the fog, 6 the
      point size and 9 to 12 the texture coordinates. */
  ghost predicate Writes(before: Machine, after: Machine, register: nat, value: Vec4, mask: nat, output: bool,
                         address: nat, outputMask: nat)
    requires before.Valid() && after.Valid()
  {
    && (forall j :: 0 <= j < 12 ==> Becomes(j == register, before.registers[j], value, mask, after.registers[j]))
    && (forall k: nat :: k < 4 ==>
          after.registers[12][k] ==
            if (register == 12 && Has(mask, k)) || (output && address == 0 && Has(outputMask, k)) then value[k]
            else before.registers[12][k])
    && (forall j :: 0 <= j < 2 ==>
          Becomes(output && address == 3 + j, before.colors[j], value, outputMask, after.colors[j]))
    && (forall j :: 0 <= j < 4 ==>
          Becomes(output && address == 9 + j, before.texcoords[j], value, outputMask, after.texcoords[j]))
    && Becomes(output && address == 5, before.fog, value, outputMask, after.fog)
    && Becomes(output && address == 6, before.pointSize, value, outputMask, after.pointSize)
    && after.address == before.address
  }

  lemma NoMask(before: Vec4, value: Vec4)
    ensures MaskedInto(before, value, 0, before)
  {
  }

  lemma RegisterWritten(m: Machine, register: nat, value: Vec4, mask: nat)
    requires m.Valid() && register <= 12
    ensures forall j :: 0 <= j <= 12 ==>
      Becomes(j == register, m.registers[j], value, mask, WriteRegister(m, register, value, mask).registers[j])
  {
    hide WriteMasked, MaskedInto;
    WritesMasked(m.registers[register], value, mask);
    NoMask(m.registers[register], value);
  }

  lemma ResultWrites(i: Instruction, m: Machine, register: nat, value: Vec4, mask: nat, mux: nat)
    requires m.Valid() && register <= 12
    requires OutputMask(i) != 0 ==> OutputAddress(i) in {0, 3, 4, 5, 6, 9, 10, 11, 12}
    ensures var r := WriteResult(i, m, register, value, mask, mux);
      r.Some? && Writes(m, r.value, register, value, mask, OutputMask(i) != 0 && OutputMux(i) == mux, OutputAddress(i),
                        OutputMask(i))
  {
    hide OutputMask, OutputMux, OutputAddress, WriteMasked, WriteRegister, Has;
    RegisterWritten(m, register, value, mask);
    RegisterOnly(m, register, value, mask);
    var m1 := WriteRegister(m, register, value, mask);
    var address, outputMask := OutputAddress(i), OutputMask(i);
    WritesMasked(m1.registers[12], value, outputMask);
    if address == 3 || address == 4 {
      WritesMasked(m1.colors[address - 3], value, outputMask);
    } else if 9 <= address <= 12 {
      WritesMasked(m1.texcoords[address - 9], value, outputMask);
    }
    WritesMasked(m1.fog, value, outputMask);
    WritesMasked(m1.pointSize, value, outputMask);
  }

  lemma RegisterOnly(m: Machine, register: nat, value: Vec4, mask: nat)
    requires m.Valid() && register <= 12
    ensures var r := WriteRegister(m, register, value, mask);
      && r.colors == m.colors && r.texcoords == m.texcoords && r.fog == m.fog && r.pointSize == m.pointSize
      && r.address == m.address
  {
  }

  /** The first half of an instruction: the multiply-accumulate unit, or the load of the address. */
  ghost predicate MacPhase(f: Fields, m: Machine, a: Vec4, b: Vec4, c: Vec4, mid: Machine)
    requires m.Valid() && mid.Valid()
  {
    if f.mac in {1, 2, 3, 4, 5, 7} then
      exists r: Vec4 :: MacComputes(f.mac, a, b, c, r)
        && Writes(m, mid, if f.outputRegister < 12 then f.outputRegister else 12, r, f.macMask,
                  f.outputMask != 0 && f.outputMux == 0, f.outputAddress, f.outputMask)
    else if f.mac == 13 then mid == m.(address := a[0].Floor)
    else mid == m
  }

  /** The second half: the scalar unit. Beside a multiply-accumulate that writes a register it has
      register 1. */
  ghost predicate IluPhase(f: Fields, mid: Machine, c: Vec4, after: Machine)
    requires mid.Valid() && after.Valid()
  {
    if f.ilu in {1, 2, 3} then
      exists r: Vec4 :: IluComputes(f.ilu, c, r)
        && Writes(mid, after,
                  if f.mac != 0 && f.macMask != 0 then 1 else if f.outputRegister < 12 then f.outputRegister else 12, r,
                  f.iluMask, f.outputMask != 0 && f.outputMux == 1, f.outputAddress, f.outputMask)
    else after == mid
  }

  /** What an instruction does to a machine. */
  ghost predicate Does(f: Fields, m: Machine, inputs: seq<Vec4>, constants: seq<real>, after: Machine)
    requires Valid(f) && m.Valid() && after.Valid() && InputsOk(inputs, constants)
  {
    var a, b, c := Read(f, A, m, inputs, constants), Read(f, B, m, inputs, constants),
                   Read(f, C, m, inputs, constants);
    exists mid: Machine :: mid.Valid() && MacPhase(f, m, a, b, c, mid) && IluPhase(f, mid, c, after)
  }

  lemma MacHalf(f: Fields, m: Machine, a: Vec4, b: Vec4, c: Vec4) returns (mid: Machine)
    requires Runs(f) && m.Valid()
    ensures mid.Valid() && MacPhase(f, m, a, b, c, mid)
    ensures var i := Encode(f);
      var m0 := if f.mac == 13 then m.(address := a[0].Floor) else m;
      var result := MacResult(f.mac, a, b, c);
      Some(mid) == if result.Some? then WriteResult(i, m0, Min(f.outputRegister, 12), result.value, f.macMask, 0)
                   else Some(m0)
  {
    hide Encode, WriteResult, MacResult, MacComputes, Writes, OutputMask, OutputMux, OutputAddress, Readable;
    DecodeEncode(f);
    MacValue(f.mac, a, b, c);
    var m0 := if f.mac == 13 then m.(address := a[0].Floor) else m;
    var result := MacResult(f.mac, a, b, c);
    if result.Some? {
      ResultWrites(Encode(f), m0, Min(f.outputRegister, 12), result.value, f.macMask, 0);
      mid := WriteResult(Encode(f), m0, Min(f.outputRegister, 12), result.value, f.macMask, 0).value;
    } else {
      mid := m0;
    }
  }

  lemma IluHalf(f: Fields, mid: Machine, c: Vec4) returns (after: Machine)
    requires Runs(f) && mid.Valid()
    ensures after.Valid() && IluPhase(f, mid, c, after)
    ensures var i := Encode(f);
      var scalar := IluResult(f.ilu, c);
      var register := if f.mac != 0 && f.macMask != 0 then 1 else Min(f.outputRegister, 12);
      && (f.ilu != 0 ==> scalar.Some?)
      && Some(after) == if f.ilu == 0 then Some(mid) else WriteResult(i, mid, register, scalar.value, f.iluMask, 1)
  {
    hide Encode, WriteResult, IluResult, IluComputes, Writes, OutputMask, OutputMux, OutputAddress, Readable;
    DecodeEncode(f);
    IluValue(f.ilu, c);
    var scalar := IluResult(f.ilu, c);
    var register := if f.mac != 0 && f.macMask != 0 then 1 else Min(f.outputRegister, 12);
    if f.ilu != 0 {
      ResultWrites(Encode(f), mid, register, scalar.value, f.iluMask, 1);
      after := WriteResult(Encode(f), mid, register, scalar.value, f.iluMask, 1).value;
    } else {
      after := mid;
    }
  }

  /** Every supported instruction does to every machine what its fields say. */
  lemma StepDoes(f: Fields, m: Machine, inputs: seq<Vec4>, constants: seq<real>) returns (after: Machine)
    requires Runs(f) && m.Valid() && InputsOk(inputs, constants)
    ensures after.Valid() && Does(f, m, inputs, constants, after)
    ensures Step(Encode(f), m, inputs, constants) ==
      if f.final == 1 then Done(after.registers[12], after.colors, after.texcoords) else Next(after)
  {
    hide Encode, WriteResult, MacResult, IluResult, MacPhase, IluPhase, Read, Step, Mac, Ilu, MacMask, IluMask,
         OutputRegister, Readable;
    DecodeEncode(f);
    var a, b, c := Read(f, A, m, inputs, constants), Read(f, B, m, inputs, constants),
                   Read(f, C, m, inputs, constants);
    var mid := MacHalf(f, m, a, b, c);
    after := IluHalf(f, mid, c);
    var executed := StepExecutes(f, m, inputs, constants);
  }

  // ---- Whole programs ----

  ghost predicate AllValid(fs: seq<Fields>) {
    forall k :: 0 <= k < |fs| ==> Valid(fs[k])
  }

  /** The instructions one after the other. */
  ghost function Program(fs: seq<Fields>): (p: seq<Word>)
    requires AllValid(fs)
    ensures |p| == 4 * |fs|
  {
    if fs == [] then [] else Program(fs[..|fs| - 1]) + Encode(fs[|fs| - 1])
  }

  lemma {:induction false} FetchEncoded(fs: seq<Fields>, pc: nat)
    requires AllValid(fs) && pc < |fs|
    ensures Fetch(Program(fs), pc) == Encode(fs[pc])
    decreases |fs|
  {
    hide Encode, Valid;
    var n := |fs| - 1;
    if pc < n {
      FetchEncoded(fs[..n], pc);
      assert Program(fs)[pc * 4..pc * 4 + 4] == Program(fs[..n])[pc * 4..pc * 4 + 4];
    }
  }

  /** Supported instructions of which exactly the last is final. */
  ghost predicate Complete(fs: seq<Fields>) {
    fs != [] && forall k :: 0 <= k < |fs| ==> Runs(fs[k]) && (fs[k].final == 1 <==> k == |fs| - 1)
  }

  ghost predicate AllMachines(ms: seq<Machine>) {
    forall k :: 0 <= k < |ms| ==> ms[k].Valid()
  }

  /** A run: each instruction does what it says to the machine the one before it left. */
  ghost predicate Traces(fs: seq<Fields>, ms: seq<Machine>, inputs: seq<Vec4>, constants: seq<real>)
    requires AllValid(fs) && InputsOk(inputs, constants)
  {
    && |ms| == |fs| + 1 && AllMachines(ms)
    && forall k :: 0 <= k < |fs| ==> Does(fs[k], ms[k], inputs, constants, ms[k + 1])
  }

  lemma CompleteValid(fs: seq<Fields>)
    requires Complete(fs)
    ensures AllValid(fs)
  {
  }

  lemma {:induction false} RunTraces(fs: seq<Fields>, pc: nat, m: Machine, inputs: seq<Vec4>, constants: seq<real>)
    returns (ms: seq<Machine>)
    requires Complete(fs) && AllValid(fs) && pc < |fs| && m.Valid() && InputsOk(inputs, constants)
    ensures |ms| == |fs| - pc + 1 && AllMachines(ms) && ms[0] == m
    ensures forall k :: 0 <= k < |fs| - pc ==> Does(fs[pc + k], ms[k], inputs, constants, ms[k + 1])
    ensures var last := ms[|ms| - 1];
      Run(Program(fs), pc, |fs|, m, inputs, constants) == Done(last.registers[12], last.colors, last.texcoords)
    decreases |fs| - pc
  {
    hide Encode, Valid, Runs, Does, Step, Fetch, Program, InputsOk;
    FetchEncoded(fs, pc);
    var after := StepDoes(fs[pc], m, inputs, constants);
    if pc == |fs| - 1 {
      ms := [m, after];
    } else {
      var rest := RunTraces(fs, pc + 1, after, inputs, constants);
      ms := [m] + rest;
      forall k | 0 <= k < |fs| - pc ensures Does(fs[pc + k], ms[k], inputs, constants, ms[k + 1]) {
        if k > 0 {
          assert Does(fs[pc + 1 + (k - 1)], rest[k - 1], inputs, constants, rest[k]);
        }
      }
    }
  }

  /** Every program of supported instructions, the last of them final, is accepted and does what its
      instructions say one after the other, starting with attribute 0 as the position, zero in the
      other registers and texture coordinates and opaque black in the colors. */
  lemma ProgramTraces(fs: seq<Fields>, inputs: seq<Vec4>, constants: seq<real>) returns (ms: seq<Machine>)
    requires Complete(fs) && |inputs| == 16 && |constants| == 768
    ensures AllValid(fs) && Traces(fs, ms, inputs, constants)
    ensures var m := ms[0];
      && (forall j, k :: 0 <= j < 12 && 0 <= k < 4 ==> m.registers[j][k] == 0.0) && m.registers[12] == inputs[0]
      && (forall j :: 0 <= j < 2 ==> m.colors[j] == [0.0, 0.0, 0.0, 1.0])
      && (forall j :: 0 <= j < 4 ==> m.texcoords[j] == [0.0, 0.0, 0.0, 0.0]) && m.address == 0
    ensures var last := ms[|ms| - 1];
      Run(Program(fs), 0, |fs|, InitialMachine(inputs), inputs, constants)
      == Done(last.registers[12], last.colors, last.texcoords)
  {
    hide Complete, Does, Run, Program;
    CompleteValid(fs);
    CompleteSome(fs);
    ms := RunTraces(fs, 0, InitialMachine(inputs), inputs, constants);
  }

  lemma CompleteSome(fs: seq<Fields>)
    requires Complete(fs)
    ensures |fs| > 0
  {
  }

  // ---- What the check says of a program ----

  /** Exactly these instructions are supported: known operations, readable operands, and an output
      only in bank 1 at a known address. */
  lemma SupportedExactly(f: Fields)
    requires Valid(f)
    ensures Supported(Encode(f)) <==> Runs(f)
  {
    hide Encode, VpSource, Mac, Ilu, OutputMask, OutputBank, OutputAddress;
    DecodeEncode(f);
    forall name: Name ensures MuxOk(Encode(f), name) <==>
      1 <= (match name case A => f.a case B => f.b case C => f.c).mux <= 3
    {
    }
    if Supported(Encode(f)) {
      assert A in UsedSources(f.mac, f.ilu) ==> MuxOk(Encode(f), A);
      assert B in UsedSources(f.mac, f.ilu) ==> MuxOk(Encode(f), B);
      assert C in UsedSources(f.mac, f.ilu) ==> MuxOk(Encode(f), C);
    }
  }

  /** An operand the operations really use is the instruction's attribute. */
  ghost predicate UsesAttribute(f: Fields) {
    || (f.mac != 0 && f.a.mux == 2) || (f.mac in {2, 4, 5, 7} && f.b.mux == 2)
    || ((f.mac in {3, 4} || f.ilu != 0) && f.c.mux == 2)
  }

  lemma OwnExactly(f: Fields)
    requires Runs(f)
    ensures OwnAttributes(Encode(f)) == if UsesAttribute(f) then {f.vertex} else {}
  {
    hide Encode, VpSource, Mac, Ilu, Vertex;
    DecodeEncode(f);
    var i, used := Encode(f), UsedSources(f.mac, f.ilu);
    assert A in used <==> f.mac != 0;
    assert B in used <==> f.mac in {2, 4, 5, 7};
    assert C in used <==> f.mac in {3, 4} || f.ilu != 0;
    if UsesAttribute(f) {
      if f.mac != 0 && f.a.mux == 2 {
        assert A in used && VpSource(i, A).mux == 2;
      } else if f.mac in {2, 4, 5, 7} && f.b.mux == 2 {
        assert B in used && VpSource(i, B).mux == 2;
      } else {
        assert C in used && VpSource(i, C).mux == 2;
      }
    }
  }

  ghost predicate UsedFrom(fs: seq<Fields>, pc: nat, attribute: nat) {
    exists k :: pc <= k < |fs| && UsesAttribute(fs[k]) && fs[k].vertex == attribute
  }

  lemma UsedNext(fs: seq<Fields>, pc: nat, attribute: nat)
    requires pc < |fs|
    ensures UsedFrom(fs, pc, attribute) <==>
      (UsesAttribute(fs[pc]) && fs[pc].vertex == attribute) || UsedFrom(fs, pc + 1, attribute)
  {
    hide UsesAttribute;
  }

  lemma {:induction false} AttributesOf(fs: seq<Fields>, pc: nat)
    requires Complete(fs) && AllValid(fs) && pc < |fs|
    ensures AttributesFrom(Program(fs), pc, |fs|).Some?
    ensures forall k: nat :: k in AttributesFrom(Program(fs), pc, |fs|).value <==> UsedFrom(fs, pc, k)
    decreases |fs| - pc
  {
    hide Encode, Valid, Runs, Fetch, Program, UsesAttribute, Supported, OwnAttributes, Final, UsedFrom;
    forall k: nat ensures UsedFrom(fs, pc, k) <==>
      (UsesAttribute(fs[pc]) && fs[pc].vertex == k) || UsedFrom(fs, pc + 1, k)
    {
      UsedNext(fs, pc, k);
    }
    NoneUsed(fs);
    FetchEncoded(fs, pc);
    SupportedExactly(fs[pc]);
    OwnExactly(fs[pc]);
    FinalIs(fs[pc]);
    if pc < |fs| - 1 {
      AttributesOf(fs, pc + 1);
    }
  }

  lemma NoneUsed(fs: seq<Fields>)
    ensures forall k: nat :: !UsedFrom(fs, |fs|, k)
  {
  }

  lemma FinalIs(f: Fields)
    requires Valid(f)
    ensures Final(Encode(f)) == f.final < 2
  {
    hide Encode, Final;
    DecodeEncode(f);
  }

  /** A complete program is accepted with exactly the attributes its used operands read. */
  lemma AttributesExactly(fs: seq<Fields>)
    requires Complete(fs)
    ensures AllValid(fs) && AttributesFrom(Program(fs), 0, |fs|).Some?
    ensures forall k: nat :: k in AttributesFrom(Program(fs), 0, |fs|).value <==>
      exists j :: 0 <= j < |fs| && UsesAttribute(fs[j]) && fs[j].vertex == k
  {
    hide Complete, AttributesFrom, Program;
    CompleteValid(fs);
    CompleteSome(fs);
    AttributesOf(fs, 0);
  }

  // ---- A transform ----

  function Plain(mux: nat): Source {
    Source(mux, 0, [0, 1, 2, 3], false)
  }

  /** The dot product of an attribute and a constant into some components of the position. */
  function DotRow(vertex: nat, constant: nat, mask: nat, final: nat): Fields {
    Fields(7, 0, constant, vertex, Plain(2), Plain(3), Plain(1), 0, 0, 0, mask, 1, 0, 0, 0, final)
  }

  /** The product of the attribute with a matrix, a row at a time. */
  function Transform(vertex: nat, constant: nat): seq<Fields> {
    [DotRow(vertex, constant, 8, 0), DotRow(vertex, constant + 1, 4, 0), DotRow(vertex, constant + 2, 2, 0),
     DotRow(vertex, constant + 3, 1, 1)]
  }

  function Row(v: Vec4, constants: seq<real>, at: nat): real
    requires 4 * at + 4 <= |constants|
  {
    v[0] * constants[4 * at] + v[1] * constants[4 * at + 1] + v[2] * constants[4 * at + 2]
    + v[3] * constants[4 * at + 3]
  }

  lemma TransformComplete(vertex: nat, constant: nat)
    requires vertex < 16 && constant + 3 < 192
    ensures Complete(Transform(vertex, constant))
  {
  }

  /** A row of the transform writes the dot product to the components of its mask and nothing else. */
  lemma RowDoes(vertex: nat, constant: nat, mask: nat, final: nat, m: Machine, inputs: seq<Vec4>,
                constants: seq<real>, after: Machine)
    requires vertex < 16 && constant < 192 && 0 < mask < 16 && final < 2
    requires m.Valid() && after.Valid() && InputsOk(inputs, constants)
    requires Valid(DotRow(vertex, constant, mask, final))
    requires Does(DotRow(vertex, constant, mask, final), m, inputs, constants, after)
    ensures forall k: nat :: k < 4 ==>
      after.registers[12][k] ==
        if Has(mask, k) then Row(inputs[vertex], constants, constant) else m.registers[12][k]
  {
    hide Read, Has, MaskedInto, MacComputes, Row;
    var f := DotRow(vertex, constant, mask, final);
    var a, b, c := Read(f, A, m, inputs, constants), Read(f, B, m, inputs, constants),
                   Read(f, C, m, inputs, constants);
    var mid: Machine :| mid.Valid() && MacPhase(f, m, a, b, c, mid) && IluPhase(f, mid, c, after);
    var r: Vec4 :| MacComputes(7, a, b, c, r) && Writes(m, mid, 0, r, 0, true, 0, mask);
    RowProduct(f, m, inputs, constants, r);
    NoBits();
  }

  lemma RowProduct(f: Fields, m: Machine, inputs: seq<Vec4>, constants: seq<real>, r: Vec4)
    requires Valid(f) && m.Valid() && InputsOk(inputs, constants) && f.constant < 192 && f.relative == 0
    requires f.a == Plain(2) && f.b == Plain(3)
    requires MacComputes(7, Read(f, A, m, inputs, constants), Read(f, B, m, inputs, constants),
                         Read(f, C, m, inputs, constants), r)
    ensures forall k: nat :: k < 4 ==> r[k] == Row(inputs[f.vertex], constants, f.constant)
  {
    hide Read;
    RowOperands(f, m, inputs, constants);
  }

  lemma NoBits()
    ensures forall k: nat :: !Has(0, k)
  {
  }

  lemma RowOperands(f: Fields, m: Machine, inputs: seq<Vec4>, constants: seq<real>)
    requires Valid(f) && m.Valid() && InputsOk(inputs, constants) && f.constant < 192 && f.relative == 0
    requires f.a == Plain(2) && f.b == Plain(3)
    ensures Read(f, A, m, inputs, constants) == inputs[f.vertex]
    ensures forall j: nat :: j < 4 ==> Read(f, B, m, inputs, constants)[j] == constants[4 * f.constant + j]
  {
    hide Read;
    ReadTaken(f, m, inputs, constants);
    forall k: nat | k < 4
      ensures Taken(f, f.a, m, inputs, constants, k) == inputs[f.vertex][k]
      ensures Taken(f, f.b, m, inputs, constants, k) == constants[4 * f.constant + k]
    {
    }
    var a, v := Read(f, A, m, inputs, constants), inputs[f.vertex];
    assert a[0] == v[0] && a[1] == v[1] && a[2] == v[2] && a[3] == v[3];
  }

  /** The four-instruction transform is accepted, needs only its attribute, and ends with the
      matrix-vector product as the position, the last column included. */
  lemma TransformsPosition(vertex: nat, constant: nat, inputs: seq<Vec4>, constants: seq<real>)
    requires vertex < 16 && constant + 3 < 192 && InputsOk(inputs, constants)
    ensures AllValid(Transform(vertex, constant))
    ensures var p := Program(Transform(vertex, constant));
      && AttributesFrom(p, 0, 4) == Some({vertex})
      && Run(p, 0, 4, InitialMachine(inputs), inputs, constants)
        == Done([Row(inputs[vertex], constants, constant), Row(inputs[vertex], constants, constant + 1),
                 Row(inputs[vertex], constants, constant + 2), Row(inputs[vertex], constants, constant + 3)],
                [OPAQUE_BLACK, OPAQUE_BLACK], [ZERO4, ZERO4, ZERO4, ZERO4])
  {
    hide Run, Program, Complete, AttributesFrom, Does, Row, InitialMachine;
    var fs := Transform(vertex, constant);
    TransformComplete(vertex, constant);
    AttributesExactly(fs);
    assert fs[0].vertex == vertex;
    assert AttributesFrom(Program(fs), 0, 4).value == {vertex};
    var ms := ProgramTraces(fs, inputs, constants);
    assert Does(fs[0], ms[0], inputs, constants, ms[1]) && Does(fs[1], ms[1], inputs, constants, ms[2]);
    assert Does(fs[2], ms[2], inputs, constants, ms[3]) && Does(fs[3], ms[3], inputs, constants, ms[4]);
    RowDoes(vertex, constant, 8, 0, ms[0], inputs, constants, ms[1]);
    RowDoes(vertex, constant + 1, 4, 0, ms[1], inputs, constants, ms[2]);
    RowDoes(vertex, constant + 2, 2, 0, ms[2], inputs, constants, ms[3]);
    RowDoes(vertex, constant + 3, 1, 1, ms[3], inputs, constants, ms[4]);
    RowKeeps(vertex, constant, 8, 0, ms[0], inputs, constants, ms[1]);
    RowKeeps(vertex, constant + 1, 4, 0, ms[1], inputs, constants, ms[2]);
    RowKeeps(vertex, constant + 2, 2, 0, ms[2], inputs, constants, ms[3]);
    RowKeeps(vertex, constant + 3, 1, 1, ms[3], inputs, constants, ms[4]);
    var p := ms[4].registers[12];
    assert p == [p[0], p[1], p[2], p[3]];
    assert ms[4].colors == [OPAQUE_BLACK, OPAQUE_BLACK];
    assert ms[4].texcoords == [ZERO4, ZERO4, ZERO4, ZERO4];
  }

  lemma RowKeeps(vertex: nat, constant: nat, mask: nat, final: nat, m: Machine, inputs: seq<Vec4>,
                 constants: seq<real>, after: Machine)
    requires m.Valid() && after.Valid() && InputsOk(inputs, constants)
    requires Valid(DotRow(vertex, constant, mask, final))
    requires Does(DotRow(vertex, constant, mask, final), m, inputs, constants, after)
    ensures after.colors == m.colors && after.texcoords == m.texcoords
  {
    hide Read, Has, MaskedInto, MacComputes;
  }
}
