/** The PGRAPH state machine of a capture replay: register file, vertex-program upload, vertex
    attributes and the batch buffers between BEGIN and END (nv2a_capture.py: PgraphReplayState). */
module Pgraph {
  import opened Bytes
  import opened Numbers
  import opened Wrappers

  type Word = w: int | 0 <= w < 0x1_0000_0000

  const KELVIN: Word := 0x97
  const FLIP_STALL: nat := 0x0130
  const TRANSFORM_PROGRAM: nat := 0x0B00
  const TRANSFORM_CONSTANT: nat := 0x0B80
  const VERTEX4F: nat := 0x1518
  const BEGIN_END: nat := 0x17FC
  const ARRAY_ELEMENT16: nat := 0x1800
  const ARRAY_ELEMENT32: nat := 0x1808
  const DRAW_ARRAYS: nat := 0x1810
  const INLINE_ARRAY: nat := 0x1818
  const VERTEX_DATA2F: nat := 0x1880
  const VERTEX_DATA4UB: nat := 0x1940
  const VERTEX_DATA4F: nat := 0x1A00
  const CLEAR_SURFACE: nat := 0x1D94
  const EXECUTION_MODE: nat := 0x1E94
  const PROGRAM_LOAD: nat := 0x1E9C
  const PROGRAM_START: nat := 0x1EA0
  const CONSTANT_LOAD: nat := 0x1EA4
  const COMPOSITE_MATRIX: nat := 0x0680
  const VIEWPORT_OFFSET: nat := 0x0A20
  const VIEWPORT_SCALE: nat := 0x0AF0

  const REGISTERS: nat := 2048
  const PROGRAM_WORDS: nat := 544
  const CONSTANT_WORDS: nat := 768
  const ELEMENT_CAPACITY: nat := 4096
  const INLINE_CAPACITY: nat := 65536
  const VERTEX_WORDS: nat := 64

  /** Vertex program and its constants. */
  datatype Program = Program(words: seq<Word>, writeWord: nat, instructions: nat, start: Word, mode: Word,
                             constants: seq<Word>, constantWriteWord: nat)

  /** Fixed-function transform. */
  datatype Fixed = Fixed(matrix: seq<Word>, offset: seq<Word>, scale: seq<Word>)

  /** The current vertex attributes. */
  datatype Attributes = Attributes(values: seq<Word>, formats: seq<Word>)

  /** What has been collected since BEGIN. */
  datatype Batch = Batch(indices: seq<Word>, inline: seq<Word>, vertexWords: seq<Word>, vertices: nat,
                         inlineOverflow: bool, vertexOverflow: bool)

  datatype State = State(classes: seq<Word>, registers: seq<Word>, program: Program, fixed: Fixed,
                         attributes: Attributes, batch: Batch, beginOp: Word, checkpoints: nat)

  datatype Kind = Clear | DrawArrays | Present | ImmediateBatch | InlineBatch | IndexedBatch

  /** A checkpoint holds the whole state its checksum, surface and pipeline views are taken from. */
  datatype Checkpoint = Checkpoint(sequence: nat, recordIndex: nat, methodIndex: nat, frame: nat, kind: Kind,
                                   method_: nat, data: Word, primitive: Word, count: nat, state: State,
                                   indices: seq<Word>)

  datatype Call = Call(frame: nat, subchannel: nat, method_: nat, data: Word, recordIndex: nat, methodIndex: nat)

  /** RAMIN objects: handle to (address, class). */
  type Objects = map<Word, (Word, Word)>

  const NO_BATCH := Batch([], [], [], 0, false, false)

  // ---- What a method writes ----

  function UploadWord(p: Program, data: Word): Program {
    if p.writeWord < |p.words| then
      p.(words := p.words[p.writeWord := data], writeWord := p.writeWord + 1,
         instructions := Max(p.instructions, (p.writeWord + 1 + 3) / 4))
    else p
  }

  function UploadConstant(p: Program, data: Word): Program {
    if p.constantWriteWord < |p.constants| then
      p.(constants := p.constants[p.constantWriteWord := data], constantWriteWord := p.constantWriteWord + 1)
    else p
  }

  function StoreProgram(p: Program, m: nat, data: Word): Program {
    if m == EXECUTION_MODE then p.(mode := data % 4)
    else if m == PROGRAM_LOAD then p.(writeWord := data * 4)
    else if m == PROGRAM_START then p.(start := data)
    else if m == CONSTANT_LOAD then p.(constantWriteWord := data * 4)
    else if TRANSFORM_PROGRAM <= m < TRANSFORM_PROGRAM + 0x80 then UploadWord(p, data)
    else if TRANSFORM_CONSTANT <= m < TRANSFORM_CONSTANT + 0x80 then UploadConstant(p, data)
    else p
  }

  /** Store at `i` when it exists. */
  function Put(s: seq<Word>, i: nat, data: Word): seq<Word> {
    if i < |s| then s[i := data] else s
  }

  function StoreFixed(f: Fixed, m: nat, data: Word): Fixed {
    if COMPOSITE_MATRIX <= m < COMPOSITE_MATRIX + 64 then f.(matrix := Put(f.matrix, (m - COMPOSITE_MATRIX) / 4, data))
    else if VIEWPORT_OFFSET <= m < VIEWPORT_OFFSET + 16 then
      f.(offset := Put(f.offset, (m - VIEWPORT_OFFSET) / 4, data))
    else if VIEWPORT_SCALE <= m < VIEWPORT_SCALE + 16 then f.(scale := Put(f.scale, (m - VIEWPORT_SCALE) / 4, data))
    else f
  }

  /** Component `component` of attribute `attribute` becomes `data`. */
  function StoreComponent(a: Attributes, attribute: nat, component: nat, data: Word, format: Word): Attributes {
    Attributes(Put(a.values, attribute * 4 + component, data), Put(a.formats, attribute, format))
  }

  function StoreAttributes(a: Attributes, m: nat, data: Word): Attributes {
    if VERTEX_DATA2F <= m < VERTEX_DATA2F + 128 then
      var relative := m - VERTEX_DATA2F;
      StoreComponent(a, relative / 8, relative % 8 / 4, data, 0x22)
    else if VERTEX_DATA4UB <= m < VERTEX_DATA4UB + 64 then
      StoreComponent(a, (m - VERTEX_DATA4UB) / 4, 0, data, 0x40)
    else if VERTEX_DATA4F <= m < VERTEX_DATA4F + 256 then
      var relative := m - VERTEX_DATA4F;
      StoreComponent(a, relative / 16, relative % 16 / 4, data, 0x42)
    else if VERTEX4F <= m < VERTEX4F + 16 then
      StoreComponent(a, 0, (m - VERTEX4F) / 4, data, 0x42)
    else a
  }

  function AddIndex(b: Batch, index: Word): Batch {
    if |b.indices| < ELEMENT_CAPACITY then b.(indices := b.indices + [index]) else b
  }

  function AddInline(b: Batch, data: Word): Batch {
    if |b.inline| < INLINE_CAPACITY then b.(inline := b.inline + [data]) else b.(inlineOverflow := true)
  }

  function AddVertex(b: Batch, attributes: seq<Word>): Batch {
    if |b.vertexWords| + VERTEX_WORDS <= INLINE_CAPACITY then
      b.(vertexWords := b.vertexWords + attributes, vertices := b.vertices + 1)
    else b.(vertexOverflow := true)
  }

  /** `attributes` are those after the method has been stored. */
  function StoreBatch(b: Batch, attributes: seq<Word>, m: nat, data: Word): Batch {
    if m == ARRAY_ELEMENT16 then AddIndex(AddIndex(b, data % 0x1_0000), data / 0x1_0000)
    else if m == ARRAY_ELEMENT32 then AddIndex(b, data)
    else if m == INLINE_ARRAY then AddInline(b, data)
    else if VERTEX4F <= m < VERTEX4F + 16 && (m - VERTEX4F) / 4 == 3 then AddVertex(b, attributes)
    else b
  }

  function Store(s: State, m: nat, data: Word): State {
    var attributes := StoreAttributes(s.attributes, m, data);
    s.(registers := Put(s.registers, m / 4, data), program := StoreProgram(s.program, m, data),
       fixed := StoreFixed(s.fixed, m, data), attributes := attributes,
       batch := StoreBatch(s.batch, attributes.values, m, data))
  }

  // ---- What a method reports ----

  function Report(s: State, c: Call, kind: Kind, m: nat, data: Word, count: nat, indices: seq<Word>): Checkpoint {
    Checkpoint(s.checkpoints, c.recordIndex, c.methodIndex, c.frame, kind, m, data, s.beginOp, count, s, indices)
  }

  function Counted(s: State): State { s.(checkpoints := s.checkpoints + 1) }

  /** What the batch at END is, with its size. */
  function BatchKind(b: Batch): Option<(Kind, nat)> {
    if b.vertices != 0 then Some((ImmediateBatch, b.vertices))
    else if b.inline != [] then Some((InlineBatch, |b.inline|))
    else if b.indices != [] then Some((IndexedBatch, |b.indices|))
    else None
  }

  function BeginOrEnd(s: State, c: Call, data: Word): (State, Option<Checkpoint>) {
    if data != 0 then (s.(batch := NO_BATCH, beginOp := data), None)
    else match BatchKind(s.batch)
      case None => (s.(beginOp := 0), None)
      case Some(batch) =>
        (Counted(s).(batch := NO_BATCH, beginOp := 0),
         Some(Report(s, c, batch.0, BEGIN_END, data, batch.1, if batch.0 == IndexedBatch then s.batch.indices else [])))
  }

  function Reported(s: State, c: Call, m: nat, data: Word): (State, Option<Checkpoint>) {
    if m == CLEAR_SURFACE then (Counted(s), Some(Report(s, c, Clear, m, data, 0, [])))
    else if m == DRAW_ARRAYS then (Counted(s), Some(Report(s, c, DrawArrays, m, data, data / 0x100_0000 % 256 + 1, [])))
    else if m == FLIP_STALL then (Counted(s), Some(Report(s, c, Present, m, data, 0, [])))
    else if m == BEGIN_END then BeginOrEnd(s, c, data)
    else (s, None)
  }

  // ---- One method ----

  function ClassOf(classes: seq<Word>, subchannel: nat): Word {
    if subchannel % 8 < |classes| && classes[subchannel % 8] != 0 then classes[subchannel % 8] else KELVIN
  }

  function ObjectClass(objects: Objects, handle: Word): Word {
    if handle in objects then objects[handle].1 else KELVIN
  }

  /** Object handles of the context methods stand for the objects' addresses. */
  function Resolve(objects: Objects, m: nat, data: Word): Word {
    if 0x180 <= m < 0x200 && data in objects then objects[data].0 else data
  }

  function Masked(m: nat): nat { m % 0x2000 - m % 4 }

  function Apply(s: State, c: Call, objects: Objects): (State, Option<Checkpoint>) {
    if c.method_ == 0 then
      (s.(classes := Put(s.classes, c.subchannel % 8, ObjectClass(objects, c.data))), None)
    else if ClassOf(s.classes, c.subchannel) != KELVIN then (s, None)
    else
      var data := Resolve(objects, c.method_, c.data);
      var m := Masked(c.method_);
      Reported(Store(s, m, data), c, m, data)
  }

  function SetConstant(s: State, index: int, words: seq<Word>): State {
    if 0 <= index < 192 && |words| == 4 && |s.program.constants| == CONSTANT_WORDS then
      s.(program := s.program.(constants :=
        s.program.constants[..index * 4] + words + s.program.constants[index * 4 + 4..]))
    else s
  }

  function DefaultRegisters(): seq<Word> {
    seq(REGISTERS, i requires 0 <= i =>
      if i == 0x033C / 4 || i == 0x0364 / 4 then 0x0207 else if i == 0x0344 / 4 || i == 0x035C / 4 then 1
      else if i == 0x0350 / 4 then 0x8006 else if i == 0x0354 / 4 then 0x0201
      else if i == 0x0360 / 4 || i == 0x036C / 4 then 0xFF
      else if 0x0370 / 4 <= i <= 0x0378 / 4 then 0x1E00 else 0)
  }

  function Start(): State {
    State(Zeros(8), DefaultRegisters(), Program(Zeros(PROGRAM_WORDS), 0, 0, 0, 0, Zeros(CONSTANT_WORDS), 0),
          Fixed(seq(16, i requires 0 <= i => if i % 5 == 0 then 0x3F80_0000 else 0), Zeros(4),
                seq(4, _ => 0x3F80_0000)),
          Attributes(Zeros(64), Zeros(16)), NO_BATCH, 0, 0)
  }

  class PgraphReplayState {
    var registers: seq<Word>
    var subchannelClasses: seq<Word>
    var vertexProgram: seq<Word>
    var transformConstants: seq<Word>
    var immediateAttributes: seq<Word>
    var immediateFormats: seq<Word>
    var compositeMatrix: seq<Word>
    var viewportOffset: seq<Word>
    var viewportScale: seq<Word>
    var elementIndices: seq<Word>
    var inlineWords: seq<Word>
    var immediateWords: seq<Word>
    var beginOp: Word
    var immediateVertices: nat
    var inlineOverflow: bool
    var immediateOverflow: bool
    var vpWriteWord: nat
    var vpInstructionCount: nat
    var vpStart: Word
    var vpExecutionMode: Word
    var constantWriteWord: nat
    var checkpointCount: nat

    function View(): State
      reads this
    {
      State(subchannelClasses, registers,
            Program(vertexProgram, vpWriteWord, vpInstructionCount, vpStart, vpExecutionMode, transformConstants,
                    constantWriteWord),
            Fixed(compositeMatrix, viewportOffset, viewportScale),
            Attributes(immediateAttributes, immediateFormats),
            Batch(elementIndices, inlineWords, immediateWords, immediateVertices, inlineOverflow, immediateOverflow),
            beginOp, checkpointCount)
    }

    constructor ()
      ensures View() == Start()
    {
      hide DefaultRegisters, Zeros;
      registers, subchannelClasses := DefaultRegisters(), Zeros(8);
      vertexProgram, transformConstants := Zeros(PROGRAM_WORDS), Zeros(CONSTANT_WORDS);
      immediateAttributes, immediateFormats := Zeros(64), Zeros(16);
      compositeMatrix := seq(16, i requires 0 <= i => if i % 5 == 0 then 0x3F80_0000 else 0);
      viewportOffset, viewportScale := Zeros(4), seq(4, _ => 0x3F80_0000);
      elementIndices, inlineWords, immediateWords := [], [], [];
      beginOp, immediateVertices, inlineOverflow, immediateOverflow := 0, 0, false, false;
      vpWriteWord, vpInstructionCount, vpStart, vpExecutionMode := 0, 0, 0, 0;
      constantWriteWord, checkpointCount := 0, 0;
    }

    method ResetBatch()
      modifies this
      ensures View() == old(View()).(batch := NO_BATCH)
    {
      ClearBuffers();
      immediateVertices := 0;
      inlineOverflow, immediateOverflow := false, false;
    }

    method ClearBuffers()
      modifies this
      ensures View() == old(View()).(batch := old(View()).batch.(indices := [], inline := [], vertexWords := []))
    {
      elementIndices, inlineWords, immediateWords := [], [], [];
    }

    method SetTransformConstant(index: int, words: seq<Word>)
      requires |transformConstants| == CONSTANT_WORDS
      modifies this
      ensures View() == SetConstant(old(View()), index, words)
    {
      if 0 <= index < 192 && |words| == 4 {
        transformConstants := transformConstants[..index * 4] + words + transformConstants[index * 4 + 4..];
      }
    }

    /** Vertex-program mode, upload and constants. */
    method StoreProgramMethod(m: nat, data: Word)
      modifies this
      ensures View() == old(View()).(program := StoreProgram(old(View()).program, m, data))
    {
      hide UploadWord, UploadConstant;
      if m == EXECUTION_MODE {
        vpExecutionMode := data % 4;
      } else if m == PROGRAM_LOAD {
        vpWriteWord := data * 4;
      } else if m == PROGRAM_START {
        vpStart := data;
      } else if m == CONSTANT_LOAD {
        constantWriteWord := data * 4;
      } else if TRANSFORM_PROGRAM <= m < TRANSFORM_PROGRAM + 0x80 {
        UploadProgramWord(data);
      } else if TRANSFORM_CONSTANT <= m < TRANSFORM_CONSTANT + 0x80 {
        UploadConstantWord(data);
      }
    }

    method UploadProgramWord(data: Word)
      modifies this
      ensures View() == old(View()).(program := UploadWord(old(View()).program, data))
    {
      if vpWriteWord < |vertexProgram| {
        vertexProgram := vertexProgram[vpWriteWord := data];
        vpWriteWord := vpWriteWord + 1;
        vpInstructionCount := Max(vpInstructionCount, (vpWriteWord + 3) / 4);
      }
    }

    method UploadConstantWord(data: Word)
      modifies this
      ensures View() == old(View()).(program := UploadConstant(old(View()).program, data))
    {
      if constantWriteWord < |transformConstants| {
        transformConstants := transformConstants[constantWriteWord := data];
        constantWriteWord := constantWriteWord + 1;
      }
    }

    method StoreFixedMethod(m: nat, data: Word)
      modifies this
      ensures View() == old(View()).(fixed := StoreFixed(old(View()).fixed, m, data))
    {
      if COMPOSITE_MATRIX <= m < COMPOSITE_MATRIX + 64 {
        compositeMatrix := Put(compositeMatrix, (m - COMPOSITE_MATRIX) / 4, data);
      } else if VIEWPORT_OFFSET <= m < VIEWPORT_OFFSET + 16 {
        viewportOffset := Put(viewportOffset, (m - VIEWPORT_OFFSET) / 4, data);
      } else if VIEWPORT_SCALE <= m < VIEWPORT_SCALE + 16 {
        viewportScale := Put(viewportScale, (m - VIEWPORT_SCALE) / 4, data);
      }
    }

    method StoreAttributeMethod(m: nat, data: Word)
      modifies this
      ensures View() == old(View()).(attributes := StoreAttributes(old(View()).attributes, m, data))
    {
      hide Put;
      if VERTEX_DATA2F <= m < VERTEX_DATA2F + 128 {
        var relative := m - VERTEX_DATA2F;
        var attribute, component := relative / 8, relative % 8 / 4;
        immediateAttributes := Put(immediateAttributes, attribute * 4 + component, data);
        immediateFormats := Put(immediateFormats, attribute, 0x22);
      } else if VERTEX_DATA4UB <= m < VERTEX_DATA4UB + 64 {
        var attribute := (m - VERTEX_DATA4UB) / 4;
        immediateAttributes := Put(immediateAttributes, attribute * 4 + 0, data);
        immediateFormats := Put(immediateFormats, attribute, 0x40);
      } else if VERTEX_DATA4F <= m < VERTEX_DATA4F + 256 {
        var relative := m - VERTEX_DATA4F;
        var attribute, component := relative / 16, relative % 16 / 4;
        immediateAttributes := Put(immediateAttributes, attribute * 4 + component, data);
        immediateFormats := Put(immediateFormats, attribute, 0x42);
      } else if VERTEX4F <= m < VERTEX4F + 16 {
        var component := (m - VERTEX4F) / 4;
        immediateAttributes := Put(immediateAttributes, 0 * 4 + component, data);
        immediateFormats := Put(immediateFormats, 0, 0x42);
      }
    }

    method AppendIndex(index: Word)
      modifies this
      ensures View() == old(View()).(batch := AddIndex(old(View()).batch, index))
    {
      if |elementIndices| < ELEMENT_CAPACITY {
        elementIndices := elementIndices + [index];
      }
    }

    method AppendVertex()
      modifies this
      ensures View() == old(View()).(batch := AddVertex(old(View()).batch, immediateAttributes))
    {
      if |immediateWords| + VERTEX_WORDS <= INLINE_CAPACITY {
        immediateWords := immediateWords + immediateAttributes;
        immediateVertices := immediateVertices + 1;
      } else {
        immediateOverflow := true;
      }
    }

    method StoreBatchMethod(m: nat, data: Word)
      modifies this
      ensures View() == old(View()).(batch := StoreBatch(old(View()).batch, old(View()).attributes.values, m, data))
    {
      hide AddIndex, AddVertex;
      if m == ARRAY_ELEMENT16 {
        AppendIndex(data % 0x1_0000);
        AppendIndex(data / 0x1_0000);
      } else if m == ARRAY_ELEMENT32 {
        AppendIndex(data);
      } else if m == INLINE_ARRAY {
        if |inlineWords| < INLINE_CAPACITY {
          inlineWords := inlineWords + [data];
        } else {
          inlineOverflow := true;
        }
      } else if VERTEX4F <= m < VERTEX4F + 16 && (m - VERTEX4F) / 4 == 3 {
        AppendVertex();
      }
    }

    method MakeCheckpoint(c: Call, kind: Kind, m: nat, data: Word, count: nat,
                          indices: seq<Word>) returns (r: Checkpoint)
      modifies this
      ensures View() == Counted(old(View())) && r == Report(old(View()), c, kind, m, data, count, indices)
    {
      r := Report(View(), c, kind, m, data, count, indices);
      checkpointCount := checkpointCount + 1;
    }

    method BeginEnd(c: Call, data: Word) returns (r: Option<Checkpoint>)
      modifies this
      ensures (View(), r) == BeginOrEnd(old(View()), c, data)
    {
      hide BatchKind;
      if data != 0 {
        ResetBatch();
        beginOp := data;
        return None;
      }
      var batch := CurrentBatch();
      if batch == None {
        beginOp := 0;
        return None;
      }
      var (kind, count) := batch.value;
      var report := MakeCheckpoint(c, kind, BEGIN_END, data, count,
                                   if kind == IndexedBatch then elementIndices else []);
      ResetBatch();
      beginOp := 0;
      return Some(report);
    }

    method CurrentBatch() returns (r: Option<(Kind, nat)>)
      ensures r == BatchKind(View().batch)
    {
      if immediateVertices != 0 {
        return Some((ImmediateBatch, immediateVertices));
      } else if inlineWords != [] {
        return Some((InlineBatch, |inlineWords|));
      } else if elementIndices != [] {
        return Some((IndexedBatch, |elementIndices|));
      }
      return None;
    }

    method ApplyMethod(c: Call, objects: Objects) returns (r: Option<Checkpoint>)
      modifies this
      ensures (View(), r) == Apply(old(View()), c, objects)
    {
      hide Put, ClassOf, ObjectClass, Resolve, Masked, Store, Reported;
      if c.method_ == 0 {
        subchannelClasses := Put(subchannelClasses, c.subchannel % 8, ObjectClass(objects, c.data));
        return None;
      }
      if ClassOf(subchannelClasses, c.subchannel) != KELVIN {
        return None;
      }
      var data := Resolve(objects, c.method_, c.data);
      var m := Masked(c.method_);
      StoreMethod(m, data);
      r := ReportMethod(c, m, data);
    }

    method StoreRegister(m: nat, data: Word)
      modifies this
      ensures View() == old(View()).(registers := Put(old(View()).registers, m / 4, data))
    {
      registers := Put(registers, m / 4, data);
    }

    method StoreMethod(m: nat, data: Word)
      modifies this
      ensures View() == Store(old(View()), m, data)
    {
      hide View, StoreProgram, StoreFixed, StoreAttributes, StoreBatch, Put;
      StoreRegister(m, data);
      StoreProgramMethod(m, data);
      StoreFixedMethod(m, data);
      StoreAttributeMethod(m, data);
      StoreBatchMethod(m, data);
    }

    method ReportMethod(c: Call, m: nat, data: Word) returns (r: Option<Checkpoint>)
      modifies this
      ensures (View(), r) == Reported(old(View()), c, m, data)
    {
      hide BeginOrEnd;
      r := None;
      if m == CLEAR_SURFACE {
        var report := MakeCheckpoint(c, Clear, m, data, 0, []);
        r := Some(report);
      } else if m == DRAW_ARRAYS {
        var report := MakeCheckpoint(c, DrawArrays, m, data, data / 0x100_0000 % 256 + 1, []);
        r := Some(report);
      } else if m == FLIP_STALL {
        var report := MakeCheckpoint(c, Present, m, data, 0, []);
        r := Some(report);
      } else if m == BEGIN_END {
        r := BeginEnd(c, data);
      }
    }
  }
}
