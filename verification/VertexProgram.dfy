/** The offline vertex-program interpreter and its static pre-check
    (nv2a_capture.py: vp_field .. execute_vertex_program). Values are exact reals. */
module VertexProgram {
  import opened Numbers
  import opened Wrappers

  type Word = x: int | 0 <= x < 0x1_0000_0000
  type Vec4 = v: seq<real> | |v| == 4 witness [0.0, 0.0, 0.0, 0.0]
  type Instruction = i: seq<Word> | |i| == 4 witness [0, 0, 0, 0]

  // ---- Instruction fields ----

  /** `length` bits of a word from bit `start` on. */
  function Bits(word: Word, start: nat, length: nat): (r: nat)
    ensures r < Pow2(length)
  {
    word / Pow2(start) % Pow2(length)
  }

  function Ilu(i: Instruction): nat { Bits(i[1], 25, 3) }
  function Mac(i: Instruction): nat { Bits(i[1], 21, 4) }
  function Constant(i: Instruction): nat { Bits(i[1], 13, 8) }
  function MacMask(i: Instruction): nat { Bits(i[3], 24, 4) }
  function OutputRegister(i: Instruction): nat { Bits(i[3], 20, 4) }
  function IluMask(i: Instruction): nat { Bits(i[3], 16, 4) }
  function OutputMask(i: Instruction): nat { Bits(i[3], 12, 4) }
  function OutputBank(i: Instruction): nat { Bits(i[3], 11, 1) }
  function OutputAddress(i: Instruction): nat { Bits(i[3], 3, 8) }
  function OutputMux(i: Instruction): nat { Bits(i[3], 2, 1) }
  function Relative(i: Instruction): nat { Bits(i[3], 1, 1) }
  function Final(i: Instruction): nat { Bits(i[3], 0, 1) }

  function Vertex(i: Instruction): (r: nat)
    ensures r < 16
  {
    Bits(i[1], 9, 4)
  }

  datatype Name = A | B | C

  /** Where one source operand comes from and how it is rearranged. */
  datatype Source = Source(mux: nat, register: nat, swizzle: seq<nat>, negate: bool)

  function VpSource(i: Instruction, name: Name): (s: Source)
    ensures |s.swizzle| == 4 && forall k :: 0 <= k < 4 ==> s.swizzle[k] < 4
  {
    match name
    case A =>
      Source(Bits(i[2], 26, 2), Bits(i[2], 28, 4),
             [Bits(i[1], 6, 2), Bits(i[1], 4, 2), Bits(i[1], 2, 2), Bits(i[1], 0, 2)], Bits(i[1], 8, 1) != 0)
    case B =>
      Source(Bits(i[2], 11, 2), Bits(i[2], 13, 4),
             [Bits(i[2], 23, 2), Bits(i[2], 21, 2), Bits(i[2], 19, 2), Bits(i[2], 17, 2)], Bits(i[2], 25, 1) != 0)
    case C =>
      Source(Bits(i[3], 28, 2), Bits(i[2], 0, 2) * 4 + Bits(i[3], 30, 2),
             [Bits(i[2], 8, 2), Bits(i[2], 6, 2), Bits(i[2], 4, 2), Bits(i[2], 2, 2)], Bits(i[2], 10, 1) != 0)
  }

  /** The operands an operation pair really uses. */
  function UsedSources(mac: nat, ilu: nat): set<Name> {
    (if mac == 1 || mac == 13 then {A}
     else if mac == 2 || mac == 5 || mac == 7 then {A, B}
     else if mac == 3 then {A, C}
     else if mac == 4 then {A, B, C}
     else {})
    + if ilu != 0 then {C} else {}
  }

  // ---- The static check ----

  const SUPPORTED_MAC_OPS: set<nat> := {0, 1, 2, 3, 4, 5, 7, 13}
  const SUPPORTED_ILU_OPS: set<nat> := {0, 1, 2, 3}
  const OUTPUT_ADDRESSES: set<nat> := {0, 3, 4, 5, 6, 9, 10, 11, 12}

  /** The instruction at `pc`; short at the end of the program memory. */
  function Fetch(program: seq<Word>, pc: nat): seq<Word> {
    if pc * 4 + 4 <= |program| then program[pc * 4..pc * 4 + 4]
    else if pc * 4 <= |program| then program[pc * 4..]
    else []
  }

  predicate MuxOk(i: Instruction, name: Name) {
    var mux := VpSource(i, name).mux;
    mux == 1 || mux == 2 || mux == 3
  }

  predicate Supported(i: Instruction) {
    && Mac(i) in SUPPORTED_MAC_OPS && Ilu(i) in SUPPORTED_ILU_OPS
    && (forall name :: name in UsedSources(Mac(i), Ilu(i)) ==> MuxOk(i, name))
    && (OutputMask(i) != 0 ==> OutputBank(i) == 1 && OutputAddress(i) in OUTPUT_ADDRESSES)
  }

  predicate ReadsInput(i: Instruction) {
    exists name :: name in UsedSources(Mac(i), Ilu(i)) && VpSource(i, name).mux == 2
  }

  function OwnAttributes(i: Instruction): set<nat> {
    if ReadsInput(i) then {Vertex(i)} else {}
  }

  /** The attributes used from `pc` up to the final instruction, if every instruction on
      the way is supported and there is a final one before `count`. */
  function AttributesFrom(program: seq<Word>, pc: nat, count: nat): Option<set<nat>>
    decreases count - pc
  {
    if pc >= count then None
    else
      var i := Fetch(program, pc);
      if |i| != 4 || !Supported(i) then None
      else if Final(i) != 0 then Some(OwnAttributes(i))
      else
        var rest := AttributesFrom(program, pc + 1, count);
        if rest.None? then None else Some(OwnAttributes(i) + rest.value)
  }

  method VertexProgramAttributes(program: seq<Word>, start: nat, count: nat) returns (attributes: Option<set<nat>>)
    ensures attributes == AttributesFrom(program, start, count)
  {
    hide Supported, OwnAttributes, Final, Fetch;
    if start >= count {
      return None;
    }
    var found: set<nat> := {};
    var pc := start;
    while pc < count
      invariant start <= pc <= count
      invariant var all, rest := AttributesFrom(program, start, count), AttributesFrom(program, pc, count);
        && (all.Some? <==> rest.Some?)
        && (all.Some? ==> all.value == found + rest.value)
    {
      var i := Fetch(program, pc);
      if |i| != 4 {
        return None;
      }
      if !Supported(i) {
        return None;
      }
      found := found + OwnAttributes(i);
      if Final(i) != 0 {
        return Some(found);
      }
      pc := pc + 1;
    }
    return None;
  }

  // ---- The interpreter ----

  /** Registers and outputs; register 12 is the position output. */
  datatype Machine = Machine(registers: seq<Vec4>, colors: seq<Vec4>, fog: Vec4, pointSize: Vec4,
                             texcoords: seq<Vec4>, address: int) {
    ghost predicate Valid() {
      |registers| == 13 && |colors| == 2 && |texcoords| == 4
    }
  }

  datatype Outcome =
    | Next(m: Machine)
    | Done(position: Vec4, colors: seq<Vec4>, texcoords: seq<Vec4>)
    | Stuck
    | Fault

  const ZERO4: Vec4 := [0.0, 0.0, 0.0, 0.0]
  const OPAQUE_BLACK: Vec4 := [0.0, 0.0, 0.0, 1.0]

  function Clamp(x: int, lo: int, hi: int): int {
    if x < lo then lo else if x > hi then hi else x
  }

  ghost predicate InputsOk(inputs: seq<Vec4>, constants: seq<real>) {
    |inputs| == 16 && |constants| == 768
  }

  function Operand(i: Instruction, s: Source, m: Machine, inputs: seq<Vec4>, constants: seq<real>): Option<Vec4>
    requires m.Valid() && InputsOk(inputs, constants)
  {
    if s.mux == 1 then Some(m.registers[Min(s.register, 12)])
    else if s.mux == 2 then Some(inputs[Vertex(i) % 16])
    else if s.mux == 3 then
      var c := Clamp(Constant(i) + (if Relative(i) != 0 then m.address else 0), 0, 191);
      Some(constants[c * 4..c * 4 + 4])
    else None
  }

  function ReadSource(i: Instruction, name: Name, m: Machine, inputs: seq<Vec4>,
                      constants: seq<real>): (r: Option<Vec4>)
    requires m.Valid() && InputsOk(inputs, constants)
  {
    var s := VpSource(i, name);
    var value := Operand(i, s, m, inputs, constants);
    if value.None? then None
    else
      var v: seq<real> := seq(4, k requires 0 <= k < 4 => value.value[s.swizzle[k]]);
      Some(if s.negate then seq(4, k requires 0 <= k < 4 => -v[k]) else v)
  }

  /** Component `k` is in a mask when bit `3 - k` is set. */
  predicate InMask(mask: nat, k: nat)
    requires k < 4
  {
    mask / Pow2(3 - k) % 2 != 0
  }

  function WriteMasked(destination: Vec4, value: Vec4, mask: nat): Vec4 {
    seq(4, k requires 0 <= k < 4 => if InMask(mask, k) then value[k] else destination[k])
  }

  /** The machine after a masked write to an output, if there is such an output. */
  function WriteOutput(m: Machine, address: nat, value: Vec4, mask: nat): (r: Option<Machine>)
    requires m.Valid()
    ensures r.Some? <==> address in OUTPUT_ADDRESSES
    ensures r.Some? ==> r.value.Valid()
  {
    if address == 0 then Some(m.(registers := m.registers[12 := WriteMasked(m.registers[12], value, mask)]))
    else if address == 3 || address == 4 then
      Some(m.(colors := m.colors[address - 3 := WriteMasked(m.colors[address - 3], value, mask)]))
    else if address == 5 then Some(m.(fog := WriteMasked(m.fog, value, mask)))
    else if address == 6 then Some(m.(pointSize := WriteMasked(m.pointSize, value, mask)))
    else if 9 <= address <= 12 then
      Some(m.(texcoords := m.texcoords[address - 9 := WriteMasked(m.texcoords[address - 9], value, mask)]))
    else None
  }

  function Splat(x: real): Vec4 {
    [x, x, x, x]
  }

  /** What the multiply-accumulate unit computes; the address load and no-op compute nothing. */
  function MacResult(mac: nat, a: Vec4, b: Vec4, c: Vec4): Option<Vec4> {
    if mac == 1 then Some(a)
    else if mac == 2 then Some(seq(4, k requires 0 <= k < 4 => a[k] * b[k]))
    else if mac == 3 then Some(seq(4, k requires 0 <= k < 4 => a[k] + c[k]))
    else if mac == 4 then Some(seq(4, k requires 0 <= k < 4 => a[k] * b[k] + c[k]))
    else if mac == 5 then Some(Splat(a[0] * b[0] + a[1] * b[1] + a[2] * b[2]))
    else if mac == 7 then Some(Splat(a[0] * b[0] + a[1] * b[1] + a[2] * b[2] + a[3] * b[3]))
    else None
  }

  const MINIMUM: real := 1.0 / 18446744073709551616.0

  /** What the scalar unit computes, for the supported operations other than none. */
  function IluResult(ilu: nat, c: Vec4): Option<Vec4> {
    if ilu == 1 then Some(c)
    else if ilu == 2 || ilu == 3 then
      var value :=
        if ilu == 3 && 0.0 <= c[0] < MINIMUM then MINIMUM
        else if ilu == 3 && -MINIMUM < c[0] < 0.0 then -MINIMUM
        else c[0];
      Some(Splat(if value != 0.0 then 1.0 / value else 0.0))
    else None
  }

  function WriteRegister(m: Machine, register: nat, value: Vec4, mask: nat): (r: Machine)
    requires m.Valid() && register <= 12
    ensures r.Valid()
  {
    if mask == 0 then m else m.(registers := m.registers[register := WriteMasked(m.registers[register], value, mask)])
  }

  /** Write a result to its register and, when the output is fed by this unit, the output. */
  function WriteResult(i: Instruction, m: Machine, register: nat, value: Vec4, mask: nat,
                       mux: nat): (r: Option<Machine>)
    requires m.Valid() && register <= 12
    ensures r.Some? ==> r.value.Valid()
  {
    var m1 := WriteRegister(m, register, value, mask);
    if OutputMask(i) != 0 && OutputMux(i) == mux then WriteOutput(m1, OutputAddress(i), value, OutputMask(i))
    else Some(m1)
  }

  /** Execute one instruction on operands that have been read. */
  function Execute(i: Instruction, m: Machine, a: Vec4, b: Vec4, c: Vec4): (r: Option<Machine>)
    requires m.Valid()
    ensures r.Some? ==> r.value.Valid()
  {
    var mac, ilu := Mac(i), Ilu(i);
    if mac !in SUPPORTED_MAC_OPS then None
    else
      var m0 := if mac == 13 then m.(address := a[0].Floor) else m;
      var result := MacResult(mac, a, b, c);
      var register := Min(OutputRegister(i), 12);
      var m1 := if result.Some? then WriteResult(i, m0, register, result.value, MacMask(i), 0) else Some(m0);
      if m1.None? then None
      else if ilu == 0 then m1
      else
        var scalar := IluResult(ilu, c);
        if scalar.None? then None
        else WriteResult(i, m1.value, if mac != 0 && MacMask(i) != 0 then 1 else register, scalar.value, IluMask(i), 1)
  }

  function OrZero(v: Option<Vec4>): Vec4 {
    if v.Some? then v.value else ZERO4
  }

  /** One instruction: every operand is read, only a missing used one stops the program. */
  function Step(i: Instruction, m: Machine, inputs: seq<Vec4>, constants: seq<real>): (r: Outcome)
    requires m.Valid() && InputsOk(inputs, constants)
    ensures r.Next? ==> r.m.Valid()
  {
    var a, b, c := ReadSource(i, A, m, inputs, constants), ReadSource(i, B, m, inputs, constants),
                   ReadSource(i, C, m, inputs, constants);
    var used := UsedSources(Mac(i), Ilu(i));
    if (A in used && a.None?) || (B in used && b.None?) || (C in used && c.None?) then Stuck
    else
      var after := Execute(i, m, OrZero(a), OrZero(b), OrZero(c));
      if after.None? then Stuck
      else if Final(i) != 0 then Done(after.value.registers[12], after.value.colors, after.value.texcoords)
      else Next(after.value)
  }

  function Run(program: seq<Word>, pc: nat, count: nat, m: Machine, inputs: seq<Vec4>, constants: seq<real>): Outcome
    requires m.Valid() && InputsOk(inputs, constants)
    decreases count - pc
  {
    if pc >= count then Stuck
    else
      var i := Fetch(program, pc);
      if |i| != 4 then Fault
      else
        var r := Step(i, m, inputs, constants);
        if r.Next? then Run(program, pc + 1, count, r.m, inputs, constants) else r
  }

  function InitialMachine(inputs: seq<Vec4>): (m: Machine)
    requires |inputs| == 16
    ensures m.Valid()
  {
    Machine(seq(13, k => if k == 12 then inputs[0] else ZERO4), [OPAQUE_BLACK, OPAQUE_BLACK], ZERO4, ZERO4,
            [ZERO4, ZERO4, ZERO4, ZERO4], 0)
  }

  method ExecuteVertexProgram(program: seq<Word>, start: nat, count: nat, inputs: seq<Vec4>, constants: seq<real>)
    returns (result: Outcome)
    requires InputsOk(inputs, constants)
    ensures result == Run(program, start, count, InitialMachine(inputs), inputs, constants)
  {
    hide Step, InitialMachine, Fetch;
    var m := InitialMachine(inputs);
    var pc := start;
    while pc < count
      invariant start <= pc && m.Valid()
      invariant Run(program, start, count, InitialMachine(inputs), inputs, constants) ==
        Run(program, pc, count, m, inputs, constants)
    {
      var i := Fetch(program, pc);
      if |i| != 4 {
        return Fault;
      }
      var r := Step(i, m, inputs, constants);
      if !r.Next? {
        return r;
      }
      m := r.m;
      pc := pc + 1;
    }
    return Stuck;
  }

  // ---- What the check promises ----

  lemma SupportedOperandsRead(i: Instruction, name: Name, m: Machine, inputs: seq<Vec4>, constants: seq<real>)
    requires Supported(i) && m.Valid() && InputsOk(inputs, constants) && name in UsedSources(Mac(i), Ilu(i))
    ensures ReadSource(i, name, m, inputs, constants).Some?
  {
    hide Mac, Ilu, UsedSources, OutputMask, OutputAddress, VpSource, Vertex, Constant;
    assert MuxOk(i, name);
  }

  lemma SupportedExecutes(i: Instruction, m: Machine, a: Vec4, b: Vec4, c: Vec4)
    requires Supported(i) && m.Valid()
    ensures Execute(i, m, a, b, c).Some?
  {
    hide Mac, Ilu, UsedSources, OutputMask, OutputAddress, OutputMux, MacMask, IluMask, OutputRegister, VpSource;
    hide WriteOutput, WriteRegister, MuxOk;
  }

  /** A supported instruction never stops the program short of its final instruction. */
  lemma SupportedNeverStuck(i: Instruction, m: Machine, inputs: seq<Vec4>, constants: seq<real>)
    requires Supported(i) && m.Valid() && InputsOk(inputs, constants)
    ensures var r := Step(i, m, inputs, constants);
      if Final(i) != 0 then r.Done? else r.Next?
  {
    hide Supported, Mac, Ilu, UsedSources, Final, ReadSource, Execute;
    forall name | name in UsedSources(Mac(i), Ilu(i)) ensures ReadSource(i, name, m, inputs, constants).Some? {
      SupportedOperandsRead(i, name, m, inputs, constants);
    }
    forall a, b, c ensures Execute(i, m, a, b, c).Some? {
      SupportedExecutes(i, m, a, b, c);
    }
  }

  /** Every accepted program reaches its final instruction, for all inputs and constants. */
  lemma {:induction false} AcceptedRuns(program: seq<Word>, pc: nat, count: nat, m: Machine, inputs: seq<Vec4>,
                                        constants: seq<real>)
    requires AttributesFrom(program, pc, count).Some? && m.Valid() && InputsOk(inputs, constants)
    ensures Run(program, pc, count, m, inputs, constants).Done?
    decreases count - pc
  {
    hide Supported, Step, Fetch, Final, OwnAttributes;
    var i := Fetch(program, pc);
    SupportedNeverStuck(i, m, inputs, constants);
    if Final(i) == 0 {
      AcceptedRuns(program, pc + 1, count, Step(i, m, inputs, constants).m, inputs, constants);
    }
  }

  ghost predicate AgreeOn(attributes: set<nat>, x: seq<Vec4>, y: seq<Vec4>)
    requires |x| == |y| == 16
  {
    forall k :: k in attributes && k < 16 ==> x[k] == y[k]
  }

  /** A used operand is the same in two runs that agree on the instruction's attributes. */
  lemma UsedOperandAgrees(i: Instruction, name: Name, m: Machine, x: seq<Vec4>, y: seq<Vec4>, constants: seq<real>)
    requires m.Valid() && InputsOk(x, constants) && InputsOk(y, constants)
    requires name in UsedSources(Mac(i), Ilu(i)) && AgreeOn(OwnAttributes(i), x, y)
    ensures ReadSource(i, name, m, x, constants) == ReadSource(i, name, m, y, constants)
  {
    hide Mac, Ilu, VpSource, Vertex, Constant, UsedSources;
    if VpSource(i, name).mux == 2 {
      assert ReadsInput(i);
      assert Vertex(i) in OwnAttributes(i);
    }
  }

  /** An operand that is not used does not influence what an instruction does. */
  lemma UnusedIgnored(i: Instruction, m: Machine, a: Vec4, b: Vec4, c: Vec4, a': Vec4, b': Vec4, c': Vec4)
    requires m.Valid()
    requires var used := UsedSources(Mac(i), Ilu(i));
      (A in used ==> a == a') && (B in used ==> b == b') && (C in used ==> c == c')
    ensures Execute(i, m, a, b, c) == Execute(i, m, a', b', c')
  {
    hide Mac, Ilu, MacMask, IluMask, OutputRegister, WriteResult;
  }

  /** One step on two input sets that agree on the attributes the instruction uses. */
  lemma StepAgrees(i: Instruction, m: Machine, x: seq<Vec4>, y: seq<Vec4>, constants: seq<real>)
    requires m.Valid() && InputsOk(x, constants) && InputsOk(y, constants)
    requires AgreeOn(OwnAttributes(i), x, y)
    ensures Step(i, m, x, constants) == Step(i, m, y, constants)
  {
    hide Mac, Ilu, Final, ReadSource, UsedSources, Execute, OwnAttributes, AgreeOn;
    forall name | name in UsedSources(Mac(i), Ilu(i))
      ensures ReadSource(i, name, m, x, constants) == ReadSource(i, name, m, y, constants)
    {
      UsedOperandAgrees(i, name, m, x, y, constants);
    }
    UnusedIgnored(i, m, OrZero(ReadSource(i, A, m, x, constants)), OrZero(ReadSource(i, B, m, x, constants)),
                  OrZero(ReadSource(i, C, m, x, constants)), OrZero(ReadSource(i, A, m, y, constants)),
                  OrZero(ReadSource(i, B, m, y, constants)), OrZero(ReadSource(i, C, m, y, constants)));
  }

  lemma {:induction false} RunsAgree(program: seq<Word>, pc: nat, count: nat, m: Machine, x: seq<Vec4>,
                                     y: seq<Vec4>, constants: seq<real>)
    requires m.Valid() && InputsOk(x, constants) && InputsOk(y, constants)
    requires var attributes := AttributesFrom(program, pc, count);
      attributes.Some? && AgreeOn(attributes.value, x, y)
    ensures Run(program, pc, count, m, x, constants) == Run(program, pc, count, m, y, constants)
    decreases count - pc
  {
    hide Supported, Step, Fetch, Final, OwnAttributes;
    var i := Fetch(program, pc);
    StepAgrees(i, m, x, y, constants);
    SupportedNeverStuck(i, m, x, constants);
    if Final(i) == 0 {
      RunsAgree(program, pc + 1, count, Step(i, m, x, constants).m, x, y, constants);
    }
  }

  /** Non-interference: an accepted program's position, colours and texture coordinates
      depend on no input but attribute 0 and the attributes the check reports, although
      every instruction reads all of its operands. */
  lemma OnlyReportedAttributesMatter(program: seq<Word>, start: nat, count: nat, x: seq<Vec4>, y: seq<Vec4>,
                                     constants: seq<real>)
    requires InputsOk(x, constants) && InputsOk(y, constants)
    requires AttributesFrom(program, start, count).Some?
    requires AgreeOn(AttributesFrom(program, start, count).value + {0}, x, y)
    ensures Run(program, start, count, InitialMachine(x), x, constants) ==
      Run(program, start, count, InitialMachine(y), y, constants)
    ensures Run(program, start, count, InitialMachine(x), x, constants).Done?
  {
    hide Run, AttributesFrom;
    assert x[0] == y[0];
    assert InitialMachine(x) == InitialMachine(y);
    RunsAgree(program, start, count, InitialMachine(x), x, y, constants);
    AcceptedRuns(program, start, count, InitialMachine(x), x, constants);
  }

  const DEFAULT_INPUT: Vec4 := [0.0, 0.0, 0.0, 1.0]

  /** The inputs as they are assembled for a vertex: the reported attributes from memory,
      the default for all others. */
  ghost function Assembled(attributes: set<nat>, memory: seq<Vec4>): (r: seq<Vec4>)
    requires |memory| == 16
    ensures |r| == 16
  {
    seq(16, k requires 0 <= k < 16 => if k in attributes then memory[k] else DEFAULT_INPUT)
  }

  /** Fetching only the reported attributes is enough when attribute 0 is one of them, or is the
      default. */
  lemma AssembledInputsSuffice(program: seq<Word>, start: nat, count: nat, memory: seq<Vec4>, constants: seq<real>)
    requires InputsOk(memory, constants)
    requires var attributes := AttributesFrom(program, start, count);
      attributes.Some? && (0 in attributes.value || memory[0] == DEFAULT_INPUT)
    ensures var inputs := Assembled(AttributesFrom(program, start, count).value, memory);
      Run(program, start, count, InitialMachine(inputs), inputs, constants)
      == Run(program, start, count, InitialMachine(memory), memory, constants)
  {
    hide Run, AttributesFrom;
    var inputs := Assembled(AttributesFrom(program, start, count).value, memory);
    OnlyReportedAttributesMatter(program, start, count, inputs, memory, constants);
  }

  // ---- An attribute 0 that is not reported ----

  /** The accepted program that does nothing but end uses no attribute, and still its position is
      attribute 0: with only the reported attributes fetched it is the default instead. */
  lemma PositionLeftToInput(memory: seq<Vec4>, constants: seq<real>)
    requires InputsOk(memory, constants)
    ensures AttributesFrom([0, 0, 0, 1], 0, 1) == Some({})
    ensures var inputs := Assembled({}, memory);
      && Run([0, 0, 0, 1], 0, 1, InitialMachine(memory), memory, constants)
         == Done(memory[0], [OPAQUE_BLACK, OPAQUE_BLACK], [ZERO4, ZERO4, ZERO4, ZERO4])
      && Run([0, 0, 0, 1], 0, 1, InitialMachine(inputs), inputs, constants)
         == Done(DEFAULT_INPUT, [OPAQUE_BLACK, OPAQUE_BLACK], [ZERO4, ZERO4, ZERO4, ZERO4])
  {
    hide ReadSource, VpSource, Mac, Ilu, OutputMask, Final;
    var i: Instruction := [0, 0, 0, 1];
    EndOnly();
    assert Fetch([0, 0, 0, 1], 0) == i;
  }

  lemma EndOnly()
    ensures var i: Instruction := [0, 0, 0, 1]; Mac(i) == 0 && Ilu(i) == 0 && OutputMask(i) == 0 && Final(i) == 1
  {
    hide Pow2;
    NoBits(25, 3);
    NoBits(21, 4);
    assert Pow2(12) == 4096 && Pow2(4) == 16 && Pow2(0) == 1 && Pow2(1) == 2 by {
      PowersUsed();
    }
  }

  lemma NoBits(start: nat, length: nat)
    ensures Bits(0, start, length) == 0
  {
    hide Pow2;
  }

  lemma PowersUsed()
    ensures Pow2(12) == 4096 && Pow2(4) == 16 && Pow2(0) == 1 && Pow2(1) == 2
  {
  }

  /** A result of unit `mux` reaches component `k` of the position, through register 12 or output 0. */
  predicate ResultWrites(i: Instruction, register: nat, mask: nat, mux: nat, k: nat)
    requires k < 4
  {
    || (mask != 0 && register == 12 && InMask(mask, k))
    || (OutputMask(i) != 0 && OutputMux(i) == mux && OutputAddress(i) == 0 && InMask(OutputMask(i), k))
  }

  /** The components of the position an instruction writes. */
  predicate WritesPosition(i: Instruction, k: nat)
    requires k < 4
  {
    var register := Min(OutputRegister(i), 12);
    || (Mac(i) in {1, 2, 3, 4, 5, 7} && ResultWrites(i, register, MacMask(i), 0, k))
    || (Ilu(i) != 0 && ResultWrites(i, if Mac(i) != 0 && MacMask(i) != 0 then 1 else register, IluMask(i), 1, k))
  }

  /** A used operand takes one of the components from the position. */
  predicate ReadsPosition(i: Instruction, components: set<nat>) {
    exists name, j :: name in UsedSources(Mac(i), Ilu(i)) && 0 <= j < 4 && VpSource(i, name).mux == 1
      && Min(VpSource(i, name).register, 12) == 12 && VpSource(i, name).swizzle[j] in components
  }

  function Left(i: Instruction, components: set<nat>): set<nat> {
    set k | k in components && k < 4 && !WritesPosition(i, k)
  }

  /** Which of some components of the position are still unwritten at the final instruction, if
      none of them is read before it is written. */
  function Remaining(program: seq<Word>, pc: nat, count: nat, components: set<nat>): Option<set<nat>>
    decreases count - pc
  {
    if pc >= count then None
    else
      var i := Fetch(program, pc);
      if |i| != 4 || ReadsPosition(i, components) then None
      else if Final(i) != 0 then Some(Left(i, components))
      else Remaining(program, pc + 1, count, Left(i, components))
  }

  /** The machine with another position. */
  function WithPosition(m: Machine, p: Vec4): (r: Machine)
    requires m.Valid()
    ensures r.Valid()
  {
    m.(registers := m.registers[12 := p])
  }

  function Differences(p: Vec4, q: Vec4): set<nat> {
    set k: nat | k < 4 && p[k] != q[k]
  }

  function Merge(p: Vec4, q: Vec4, written: set<nat>): Vec4 {
    seq(4, k requires 0 <= k < 4 => if k in written then q[k] else p[k])
  }

  /** `after` has changed the position only where it was written. */
  predicate KeepsUnwritten(m: Machine, after: Machine, written: set<nat>)
    requires m.Valid() && after.Valid()
  {
    forall k: nat :: k < 4 && k !in written ==> after.registers[12][k] == m.registers[12][k]
  }

  function ResultWritten(i: Instruction, register: nat, mask: nat, mux: nat): set<nat> {
    set k: nat | k < 4 && ResultWrites(i, register, mask, mux, k)
  }

  function Written(i: Instruction): set<nat> {
    set k: nat | k < 4 && WritesPosition(i, k)
  }

  /** Writing a result to machines with different positions leaves them different where it does
      not write. */
  lemma ResultCarries(i: Instruction, m: Machine, p: Vec4, register: nat, value: Vec4, mask: nat, mux: nat)
    requires m.Valid() && register <= 12
    ensures var r, r' := WriteResult(i, m, register, value, mask, mux),
                WriteResult(i, WithPosition(m, p), register, value, mask, mux);
      var written := ResultWritten(i, register, mask, mux);
      && (r.None? <==> r'.None?)
      && (r.Some? ==>
            && KeepsUnwritten(m, r.value, written)
            && r'.value == WithPosition(r.value, Merge(p, r.value.registers[12], written)))
  {
    hide OutputMask, OutputMux, OutputAddress, InMask;
    var r := WriteResult(i, m, register, value, mask, mux);
    var r' := WriteResult(i, WithPosition(m, p), register, value, mask, mux);
    if r.Some? {
      var q := Merge(p, r.value.registers[12], ResultWritten(i, register, mask, mux));
      assert r'.value.registers[12] == q;
      assert r'.value.registers == r.value.registers[12 := q];
    }
  }

  lemma MergeTwice(p: Vec4, r: Vec4, r': Vec4, first: set<nat>, second: set<nat>)
    requires forall k: nat :: k < 4 && k !in second ==> r'[k] == r[k]
    ensures Merge(Merge(p, r, first), r', second) == Merge(p, r', first + second)
  {
  }

  lemma ExecuteCarries(i: Instruction, m: Machine, p: Vec4, a: Vec4, b: Vec4, c: Vec4)
    requires m.Valid() && Execute(i, m, a, b, c).Some?
    ensures var r, r' := Execute(i, m, a, b, c), Execute(i, WithPosition(m, p), a, b, c);
      && r'.Some? && KeepsUnwritten(m, r.value, Written(i))
      && r'.value == WithPosition(r.value, Merge(p, r.value.registers[12], Written(i)))
  {
    hide Mac, Ilu, MacMask, IluMask, OutputRegister, WriteResult, ResultWrites, Merge, KeepsUnwritten;
    var mac, ilu := Mac(i), Ilu(i);
    var m0 := if mac == 13 then m.(address := a[0].Floor) else m;
    var register := Min(OutputRegister(i), 12);
    var result := MacResult(mac, a, b, c);
    var scalar := IluResult(ilu, c);
    var register1 := if mac != 0 && MacMask(i) != 0 then 1 else register;
    var first := if result.Some? then ResultWritten(i, register, MacMask(i), 0) else {};
    var second := if ilu != 0 then ResultWritten(i, register1, IluMask(i), 1) else {};
    assert Written(i) == first + second;
    NothingCarried(m0, p);
    var m1 := m0;
    if result.Some? {
      ResultCarries(i, m0, p, register, result.value, MacMask(i), 0);
      m1 := WriteResult(i, m0, register, result.value, MacMask(i), 0).value;
    }
    var p1 := Merge(p, m1.registers[12], first);
    var m2 := m1;
    NothingCarried(m1, p1);
    if ilu != 0 {
      ResultCarries(i, m1, p1, register1, scalar.value, IluMask(i), 1);
      m2 := WriteResult(i, m1, register1, scalar.value, IluMask(i), 1).value;
    }
    CarryOn(m, m0, m1, m2, p, first, second);
  }

  lemma NothingCarried(m: Machine, p: Vec4)
    requires m.Valid()
    ensures KeepsUnwritten(m, m, {}) && Merge(p, m.registers[12], {}) == p
  {
  }

  lemma CarryOn(m: Machine, m0: Machine, m1: Machine, m2: Machine, p: Vec4, first: set<nat>, second: set<nat>)
    requires m.Valid() && m0.Valid() && m1.Valid() && m2.Valid() && m0.registers == m.registers
    requires KeepsUnwritten(m0, m1, first) && KeepsUnwritten(m1, m2, second)
    ensures KeepsUnwritten(m, m2, first + second)
    ensures Merge(Merge(p, m1.registers[12], first), m2.registers[12], second)
      == Merge(p, m2.registers[12], first + second)
  {
    MergeTwice(p, m1.registers[12], m2.registers[12], first, second);
  }

  lemma SwizzledEqual(s: Source, u: Vec4, v: Vec4)
    requires |s.swizzle| == 4 && forall k :: 0 <= k < 4 ==> s.swizzle[k] < 4 && u[s.swizzle[k]] == v[s.swizzle[k]]
    ensures seq(4, k requires 0 <= k < 4 => u[s.swizzle[k]]) == seq(4, k requires 0 <= k < 4 => v[s.swizzle[k]])
  {
  }

  /** An operand that takes nothing from where two positions differ is the same for both. */
  lemma OperandCarries(i: Instruction, name: Name, m: Machine, p: Vec4, inputs: seq<Vec4>, constants: seq<real>)
    requires m.Valid() && InputsOk(inputs, constants) && name in UsedSources(Mac(i), Ilu(i))
    requires !ReadsPosition(i, Differences(p, m.registers[12]))
    ensures ReadSource(i, name, WithPosition(m, p), inputs, constants) == ReadSource(i, name, m, inputs, constants)
  {
    hide Mac, Ilu, VpSource, Vertex, Constant, UsedSources;
    var s := VpSource(i, name);
    var u := Operand(i, s, WithPosition(m, p), inputs, constants);
    var v := Operand(i, s, m, inputs, constants);
    if v.Some? {
      forall j | 0 <= j < 4 ensures u.value[s.swizzle[j]] == v.value[s.swizzle[j]] {
        if s.mux == 1 && Min(s.register, 12) == 12 {
          assert s.swizzle[j] !in Differences(p, m.registers[12]);
        }
      }
      SwizzledEqual(s, u.value, v.value);
    }
  }

  /** One step on machines with two positions, none of whose differences is read: only the
      positions differ after it, where they did before and are not written. */
  lemma StepCarries(i: Instruction, m: Machine, p: Vec4, inputs: seq<Vec4>, constants: seq<real>)
    requires m.Valid() && InputsOk(inputs, constants) && Supported(i)
    requires !ReadsPosition(i, Differences(p, m.registers[12]))
    ensures var r, r' := Step(i, m, inputs, constants), Step(i, WithPosition(m, p), inputs, constants);
      exists after: Machine, q: Vec4 :: after.Valid()
        && Differences(q, after.registers[12]) == Left(i, Differences(p, m.registers[12]))
        && if Final(i) != 0 then
             r == Done(after.registers[12], after.colors, after.texcoords)
             && r' == Done(q, after.colors, after.texcoords)
           else r == Next(after) && r' == Next(WithPosition(after, q))
  {
    hide Supported, Mac, Ilu, Final, ReadSource, UsedSources, Execute, ReadsPosition, Differences, Left, Merge,
         KeepsUnwritten, Written, WithPosition;
    var m' := WithPosition(m, p);
    SupportedNeverStuck(i, m, inputs, constants);
    forall name | name in UsedSources(Mac(i), Ilu(i))
      ensures ReadSource(i, name, m', inputs, constants) == ReadSource(i, name, m, inputs, constants)
    {
      OperandCarries(i, name, m, p, inputs, constants);
    }
    var a, b, c := OrZero(ReadSource(i, A, m, inputs, constants)), OrZero(ReadSource(i, B, m, inputs, constants)),
                   OrZero(ReadSource(i, C, m, inputs, constants));
    UnusedIgnored(i, m', OrZero(ReadSource(i, A, m', inputs, constants)),
                  OrZero(ReadSource(i, B, m', inputs, constants)), OrZero(ReadSource(i, C, m', inputs, constants)),
                  a, b, c);
    ExecuteCarries(i, m, p, a, b, c);
    var after := Execute(i, m, a, b, c).value;
    DifferencesLeft(i, m, after, p);
    PositionOf(after, Merge(p, after.registers[12], Written(i)));
  }

  lemma PositionOf(m: Machine, q: Vec4)
    requires m.Valid()
    ensures var r := WithPosition(m, q);
      r.registers[12] == q && r.colors == m.colors && r.texcoords == m.texcoords
  {
  }

  lemma DifferencesLeft(i: Instruction, m: Machine, after: Machine, p: Vec4)
    requires m.Valid() && after.Valid() && KeepsUnwritten(m, after, Written(i))
    ensures Differences(Merge(p, after.registers[12], Written(i)), after.registers[12])
      == Left(i, Differences(p, m.registers[12]))
  {
    hide WritesPosition;
  }

  /** Two results with the same colours and texture coordinates, and positions that differ in
      exactly these components. */
  ghost predicate DifferIn(r: Outcome, r': Outcome, components: set<nat>) {
    && r.Done? && r'.Done? && r.colors == r'.colors && r.texcoords == r'.texcoords
    && Differences(r'.position, r.position) == components
  }

  /** Whole runs from machines with two positions: the results differ exactly in the components
      of the position that differed at first and were never written. */
  lemma {:induction false} RunCarries(program: seq<Word>, pc: nat, count: nat, m: Machine, p: Vec4, inputs: seq<Vec4>,
                                      constants: seq<real>)
    requires m.Valid() && InputsOk(inputs, constants) && AttributesFrom(program, pc, count).Some?
    requires Remaining(program, pc, count, Differences(p, m.registers[12])).Some?
    ensures DifferIn(Run(program, pc, count, m, inputs, constants),
                     Run(program, pc, count, WithPosition(m, p), inputs, constants),
                     Remaining(program, pc, count, Differences(p, m.registers[12])).value)
    decreases count - pc
  {
    hide Supported, Step, Fetch, Final, OwnAttributes, ReadsPosition, Differences, Left, WithPosition;
    var i := Fetch(program, pc);
    StepCarries(i, m, p, inputs, constants);
    var after: Machine, q: Vec4 :| after.Valid()
      && Differences(q, after.registers[12]) == Left(i, Differences(p, m.registers[12]))
      && var r, r' := Step(i, m, inputs, constants), Step(i, WithPosition(m, p), inputs, constants);
      if Final(i) != 0 then
        r == Done(after.registers[12], after.colors, after.texcoords)
        && r' == Done(q, after.colors, after.texcoords)
      else r == Next(after) && r' == Next(WithPosition(after, q));
    if Final(i) == 0 {
      RunCarries(program, pc + 1, count, after, q, inputs, constants);
    }
  }

  /** Where attribute 0 is not the default although it is not fetched. */
  function Missing(attributes: set<nat>, memory: seq<Vec4>): set<nat>
    requires |memory| == 16
  {
    if 0 in attributes then {} else Differences(DEFAULT_INPUT, memory[0])
  }

  /** What fetching only the reported attributes changes, when the program reads no missing
      component of attribute 0 from the position before writing it: exactly the missing components
      it does not write either. So the results are equal if and only if it writes them all. */
  lemma AssembledInputsExact(program: seq<Word>, start: nat, count: nat, memory: seq<Vec4>, constants: seq<real>)
    requires InputsOk(memory, constants) && AttributesFrom(program, start, count).Some?
    requires Remaining(program, start, count, Missing(AttributesFrom(program, start, count).value, memory)).Some?
    ensures var attributes := AttributesFrom(program, start, count).value;
      var inputs := Assembled(attributes, memory);
      var fetched, full := Run(program, start, count, InitialMachine(inputs), inputs, constants),
                           Run(program, start, count, InitialMachine(memory), memory, constants);
      var remaining := Remaining(program, start, count, Missing(attributes, memory)).value;
      DifferIn(full, fetched, remaining) && (fetched == full <==> remaining == {})
  {
    hide Run, AttributesFrom, Remaining;
    var attributes := AttributesFrom(program, start, count).value;
    var inputs := Assembled(attributes, memory);
    var p := inputs[0];
    assert InitialMachine(inputs) == WithPosition(InitialMachine(memory), p);
    assert Missing(attributes, memory) == Differences(p, InitialMachine(memory).registers[12]);
    RunsAgree(program, start, count, InitialMachine(inputs), inputs, memory, constants);
    RunCarries(program, start, count, InitialMachine(memory), p, memory, constants);
    var fetched, full := Run(program, start, count, InitialMachine(inputs), inputs, constants),
                         Run(program, start, count, InitialMachine(memory), memory, constants);
    NoDifference(fetched.position, full.position);
  }

  lemma NoDifference(p: Vec4, q: Vec4)
    ensures Differences(p, q) == {} <==> p == q
  {
    if Differences(p, q) == {} {
      forall k: nat | k < 4 ensures p[k] == q[k] {
        assert k !in Differences(p, q);
      }
    }
  }

  // ---- Programs that never read the position ----

  const COMPONENTS: set<nat> := {0, 1, 2, 3}

  predicate ReadsNoPosition(program: seq<Word>, pc: nat, count: nat)
    decreases count - pc
  {
    pc < count ==>
      var i := Fetch(program, pc);
      |i| == 4 ==> !ReadsPosition(i, COMPONENTS) && (Final(i) == 0 ==> ReadsNoPosition(program, pc + 1, count))
  }

  /** Some instruction up to the final one writes the component. */
  predicate EverWritten(program: seq<Word>, pc: nat, count: nat, k: nat)
    requires k < 4
    decreases count - pc
  {
    pc < count &&
    var i := Fetch(program, pc);
    |i| == 4 && (WritesPosition(i, k) || (Final(i) == 0 && EverWritten(program, pc + 1, count, k)))
  }

  function Unwritten(program: seq<Word>, pc: nat, count: nat, components: set<nat>): set<nat> {
    set k: nat | k in components && k < 4 && !EverWritten(program, pc, count, k)
  }

  lemma {:induction false} RemainingUnwritten(program: seq<Word>, pc: nat, count: nat, components: set<nat>)
    requires AttributesFrom(program, pc, count).Some? && ReadsNoPosition(program, pc, count)
    requires components <= COMPONENTS
    ensures Remaining(program, pc, count, components)
      == Some(Unwritten(program, pc, count, components))
    decreases count - pc
  {
    hide Supported, OwnAttributes, Fetch, Final, WritesPosition, UsedSources, VpSource;
    var i := Fetch(program, pc);
    assert !ReadsPosition(i, components);
    if Final(i) == 0 {
      RemainingUnwritten(program, pc + 1, count, Left(i, components));
      assert Unwritten(program, pc + 1, count, Left(i, components)) == Unwritten(program, pc, count, components);
    } else {
      assert Left(i, components) == Unwritten(program, pc, count, components);
    }
  }

  /** For a program that reads nothing of the position, fetching only the reported attributes is
      enough if and only if it writes every component in which an attribute 0 it does not use is
      not the default. */
  lemma AssembledInputsExactUnread(program: seq<Word>, start: nat, count: nat, memory: seq<Vec4>, constants: seq<real>)
    requires InputsOk(memory, constants) && AttributesFrom(program, start, count).Some?
    requires ReadsNoPosition(program, start, count) && 0 !in AttributesFrom(program, start, count).value
    ensures var inputs := Assembled(AttributesFrom(program, start, count).value, memory);
      Run(program, start, count, InitialMachine(inputs), inputs, constants)
      == Run(program, start, count, InitialMachine(memory), memory, constants)
      <==> forall k: nat :: k < 4 && !EverWritten(program, start, count, k) ==> memory[0][k] == DEFAULT_INPUT[k]
  {
    hide Run, AttributesFrom, Remaining, ReadsNoPosition, EverWritten;
    var missing := Missing(AttributesFrom(program, start, count).value, memory);
    RemainingUnwritten(program, start, count, missing);
    AssembledInputsExact(program, start, count, memory, constants);
    var remaining := Remaining(program, start, count, missing).value;
    if remaining == {} {
      forall k: nat | k < 4 && !EverWritten(program, start, count, k) ensures memory[0][k] == DEFAULT_INPUT[k] {
        assert k !in remaining;
      }
    }
  }
}
