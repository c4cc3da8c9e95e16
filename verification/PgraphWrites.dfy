/** Everything the PGRAPH methods write, over every run: each cell holds its last write
    (nv2a_capture.py: PgraphReplayState.apply_method, set_transform_constant). */
module PgraphWrites {
  import opened Numbers
  import opened Wrappers
  import opened Pgraph
  import opened PgraphProofs

  const ONE: Word := 0x3F80_0000

  // ---- Uploads ----

  /** The two windows words are uploaded through. */
  datatype Port = ProgramPort | ConstantPort

  function LoadMethod(port: Port): nat { if port == ProgramPort then PROGRAM_LOAD else CONSTANT_LOAD }

  function FirstMethod(port: Port): nat { if port == ProgramPort then TRANSFORM_PROGRAM else TRANSFORM_CONSTANT }

  function Capacity(port: Port): nat { if port == ProgramPort then PROGRAM_WORDS else CONSTANT_WORDS }

  predicate Loads(events: seq<Event>, n: nat, port: Port): (r: bool)
    requires n < |events|
    ensures r ==> events[n].Method?
  {
    ReachesKelvin(events, n) && MethodOf(events[n]) == LoadMethod(port)
  }

  predicate Sends(events: seq<Event>, n: nat, port: Port): (r: bool)
    requires n < |events|
    ensures r ==> events[n].Method?
  {
    ReachesKelvin(events, n) && FirstMethod(port) <= MethodOf(events[n]) < FirstMethod(port) + 0x80
  }

  /** Four times the last load position, and one more for every word sent since. */
  function Cursor(events: seq<Event>, n: nat, port: Port): nat
    requires n <= |events|
  {
    if n == 0 then 0
    else if Loads(events, n - 1, port) then DataOf(events[n - 1]) * 4
    else Cursor(events, n - 1, port) + if Sends(events, n - 1, port) then 1 else 0
  }

  function WriteWord(p: Program, port: Port): nat {
    if port == ProgramPort then p.writeWord else p.constantWriteWord
  }

  /** The write position is the cursor, up to the end of the memory. */
  predicate Follows(p: Program, port: Port, cursor: nat) {
    if cursor < Capacity(port) then WriteWord(p, port) == cursor else WriteWord(p, port) >= Capacity(port)
  }

  // ---- Cells ----

  datatype Cell =
    | ProgramWord(i: nat)
    | ConstantWord(i: nat)
    | ProgramStart
    | ExecutionMode
    | Component(attribute: nat, component: nat)
    | Format(attribute: nat)
    | Matrix(i: nat)
    | ViewportOffset(i: nat)
    | ViewportScale(i: nat)

  predicate Exists(cell: Cell) {
    match cell
    case ProgramWord(i) => i < PROGRAM_WORDS
    case ConstantWord(i) => i < CONSTANT_WORDS
    case ProgramStart => true
    case ExecutionMode => true
    case Component(attribute, component) => attribute < 16 && component < 4
    case Format(attribute) => attribute < 16
    case Matrix(i) => i < 16
    case ViewportOffset(i) => i < 4
    case ViewportScale(i) => i < 4
  }

  function Content(s: State, cell: Cell): Word
    requires Sizes(s) && Exists(cell)
  {
    match cell
    case ProgramWord(i) => s.program.words[i]
    case ConstantWord(i) => s.program.constants[i]
    case ProgramStart => s.program.start
    case ExecutionMode => s.program.mode
    case Component(attribute, component) => s.attributes.values[4 * attribute + component]
    case Format(attribute) => s.attributes.formats[attribute]
    case Matrix(i) => s.fixed.matrix[i]
    case ViewportOffset(i) => s.fixed.offset[i]
    case ViewportScale(i) => s.fixed.scale[i]
  }

  /** What a cell holds before anything is written: the identity matrix, unit scale, else zero. */
  function Initial(cell: Cell): Word {
    match cell
    case Matrix(i) => if i % 5 == 0 then ONE else 0
    case ViewportScale(_) => ONE
    case _ => 0
  }

  /** What a Kelvin method writes to a cell that is not uploaded. */
  function MethodWrite(m: nat, data: Word, cell: Cell): Option<Word> {
    match cell
    case ProgramStart => if m == PROGRAM_START then Some(data) else None
    case ExecutionMode => if m == EXECUTION_MODE then Some(data % 4) else None
    case Component(attribute, component) =>
      if || m == 0x1A00 + 16 * attribute + 4 * component
         || (component < 2 && m == 0x1880 + 8 * attribute + 4 * component)
         || (component == 0 && m == 0x1940 + 4 * attribute)
         || (attribute == 0 && m == 0x1518 + 4 * component) then Some(data)
      else None
    case Format(attribute) =>
      if 0x1A00 + 16 * attribute <= m < 0x1A10 + 16 * attribute || (attribute == 0 && 0x1518 <= m < 0x1528) then
        Some(0x42)
      else if 0x1880 + 8 * attribute <= m < 0x1888 + 8 * attribute then Some(0x22)
      else if m == 0x1940 + 4 * attribute then Some(0x40)
      else None
    case Matrix(i) => if m == 0x0680 + 4 * i then Some(data) else None
    case ViewportOffset(i) => if m == 0x0A20 + 4 * i then Some(data) else None
    case ViewportScale(i) => if m == 0x0AF0 + 4 * i then Some(data) else None
    case _ => None
  }

  /** What event `n` writes to a cell, told from the events alone. */
  function WrittenBy(events: seq<Event>, n: nat, cell: Cell): Option<Word>
    requires n < |events|
  {
    match events[n]
    case Constant(index, words) =>
      if cell.ConstantWord? && 0 <= index < 192 && |words| == 4 && index * 4 <= cell.i < index * 4 + 4 then
        Some(words[cell.i - index * 4])
      else None
    case Method(_, _) =>
      if cell.ProgramWord? then
        if Sends(events, n, ProgramPort) && Cursor(events, n, ProgramPort) == cell.i then Some(DataOf(events[n]))
        else None
      else if cell.ConstantWord? then
        if Sends(events, n, ConstantPort) && Cursor(events, n, ConstantPort) == cell.i then Some(DataOf(events[n]))
        else None
      else if ReachesKelvin(events, n) then MethodWrite(MethodOf(events[n]), DataOf(events[n]), cell)
      else None
  }

  function LastWritten(events: seq<Event>, n: nat, cell: Cell): Word
    requires n <= |events|
  {
    if n == 0 then Initial(cell)
    else match WrittenBy(events, n - 1, cell)
      case Some(w) => w
      case None => LastWritten(events, n - 1, cell)
  }

  // ---- One store ----

  /** The attribute, component and format an attribute method is for. */
  function Target(m: nat): Option<(nat, nat, Word)> {
    if VERTEX_DATA2F <= m < VERTEX_DATA2F + 128 then
      Some(((m - VERTEX_DATA2F) / 8, (m - VERTEX_DATA2F) % 8 / 4, 0x22))
    else if VERTEX_DATA4UB <= m < VERTEX_DATA4UB + 64 then Some(((m - VERTEX_DATA4UB) / 4, 0, 0x40))
    else if VERTEX_DATA4F <= m < VERTEX_DATA4F + 256 then
      Some(((m - VERTEX_DATA4F) / 16, (m - VERTEX_DATA4F) % 16 / 4, 0x42))
    else if VERTEX4F <= m < VERTEX4F + 16 then Some((0, (m - VERTEX4F) / 4, 0x42))
    else None
  }

  lemma TargetStored(a: Attributes, m: nat, data: Word)
    ensures StoreAttributes(a, m, data) ==
      match Target(m)
      case Some((attribute, component, format)) => StoreComponent(a, attribute, component, data, format)
      case None => a
    ensures Target(m).Some? ==> Target(m).value.0 < 16 && Target(m).value.1 < 4
  {
    hide StoreComponent;
  }

  lemma TargetOfComponent(m: nat, data: Word, attribute: nat, component: nat)
    requires m % 4 == 0 && attribute < 16 && component < 4
    ensures MethodWrite(m, data, Component(attribute, component)) ==
      if Target(m).Some? && Target(m).value.0 == attribute && Target(m).value.1 == component then Some(data) else None
  {
  }

  lemma TargetOfFormat(m: nat, data: Word, attribute: nat)
    requires m % 4 == 0 && attribute < 16
    ensures MethodWrite(m, data, Format(attribute)) ==
      if Target(m).Some? && Target(m).value.0 == attribute then Some(Target(m).value.2) else None
  {
  }

  lemma AttributeStores(s: State, m: nat, data: Word, cell: Cell)
    requires Sizes(s) && Exists(cell) && m % 4 == 0 && (cell.Component? || cell.Format?)
    ensures Sizes(Store(s, m, data))
    ensures Content(Store(s, m, data), cell) ==
      match MethodWrite(m, data, cell) case Some(w) => w case None => Content(s, cell)
  {
    hide StoreBatch, StoreProgram, StoreFixed, StoreAttributes, Target, MethodWrite;
    StoreKeepsSizes(s, m, data);
    TargetStored(s.attributes, m, data);
    if cell.Component? {
      TargetOfComponent(m, data, cell.attribute, cell.component);
    } else {
      TargetOfFormat(m, data, cell.attribute);
    }
  }

  lemma FixedStores(s: State, m: nat, data: Word, cell: Cell)
    requires Sizes(s) && Exists(cell) && m % 4 == 0 && (cell.Matrix? || cell.ViewportOffset? || cell.ViewportScale?)
    ensures Sizes(Store(s, m, data))
    ensures Content(Store(s, m, data), cell) ==
      match MethodWrite(m, data, cell) case Some(w) => w case None => Content(s, cell)
  {
    hide StoreBatch, StoreProgram, StoreAttributes;
    StoreKeepsSizes(s, m, data);
  }

  lemma ProgramStores(s: State, m: nat, data: Word, cell: Cell, cursor: nat, constantCursor: nat)
    requires Sizes(s) && Exists(cell)
    requires cell.ProgramWord? || cell.ConstantWord? || cell.ProgramStart? || cell.ExecutionMode?
    requires Follows(s.program, ProgramPort, cursor) && Follows(s.program, ConstantPort, constantCursor)
    ensures Sizes(Store(s, m, data))
    ensures Content(Store(s, m, data), cell) ==
      if cell.ProgramWord? then
        if TRANSFORM_PROGRAM <= m < TRANSFORM_PROGRAM + 0x80 && cursor == cell.i then data else Content(s, cell)
      else if cell.ConstantWord? then
        if TRANSFORM_CONSTANT <= m < TRANSFORM_CONSTANT + 0x80 && constantCursor == cell.i then data
        else Content(s, cell)
      else match MethodWrite(m, data, cell) case Some(w) => w case None => Content(s, cell)
  {
    hide StoreBatch, StoreFixed, StoreAttributes;
    StoreKeepsSizes(s, m, data);
  }

  lemma CursorStores(p: Program, m: nat, data: Word, port: Port, cursor: nat)
    requires |p.words| == PROGRAM_WORDS && |p.constants| == CONSTANT_WORDS && Follows(p, port, cursor)
    ensures Follows(StoreProgram(p, m, data), port,
                    if m == LoadMethod(port) then data * 4
                    else cursor + if FirstMethod(port) <= m < FirstMethod(port) + 0x80 then 1 else 0)
  {
  }

  // ---- Whole runs ----

  lemma {:induction false} CursorFollowed(events: seq<Event>, n: nat, port: Port)
    requires n <= |events|
    ensures Follows(After(events, n).program, port, Cursor(events, n, port))
  {
    hide Step, ReachesKelvin, Store, StoreProgram, Reported, MethodOf, DataOf;
    if n > 0 {
      var s, e := After(events, n - 1), events[n - 1];
      CursorFollowed(events, n - 1, port);
      SizesNeverChange(events, n - 1);
      StepSplits(events, n - 1);
      if ReachesKelvin(events, n - 1) {
        var m, data := MethodOf(e), DataOf(e);
        StoreProgramPart(s, m, data);
        ReportKeeps(Store(s, m, data), e.call, m, data);
        CursorStores(s.program, m, data, port, Cursor(events, n - 1, port));
      } else if e.Constant? {
        ConstantKeepsRest(s, e.index, e.words);
      }
    }
  }

  lemma ConstantKeepsRest(s: State, index: int, words: seq<Word>)
    requires Sizes(s)
    ensures Step(s, Constant(index, words)).0 ==
      s.(program := s.program.(constants :=
        if 0 <= index < 192 && |words| == 4 then Overlay(s.program.constants, index * 4, words)
        else s.program.constants))
  {
    hide SetConstant, Overlay;
    SetConstantExact(s, index, words);
  }

  lemma ConstantStep(events: seq<Event>, n: nat, cell: Cell)
    requires n < |events| && events[n].Constant? && Exists(cell)
    ensures Sizes(After(events, n)) && Sizes(After(events, n + 1))
    ensures Content(After(events, n + 1), cell) ==
      match WrittenBy(events, n, cell) case Some(w) => w case None => Content(After(events, n), cell)
  {
    hide Step, After;
    SizesNeverChange(events, n);
    SizesNeverChange(events, n + 1);
    AfterNext(events, n);
    ConstantKeepsRest(After(events, n), events[n].index, events[n].words);
  }

  lemma MethodStep(events: seq<Event>, n: nat, cell: Cell)
    requires n < |events| && events[n].Method? && Exists(cell)
    ensures Sizes(After(events, n)) && Sizes(After(events, n + 1))
    ensures Content(After(events, n + 1), cell) ==
      match WrittenBy(events, n, cell) case Some(w) => w case None => Content(After(events, n), cell)
  {
    hide Step, After, ReachesKelvin, Store, Reported, MethodOf, DataOf, MethodWrite, Follows, Cursor;
    SizesNeverChange(events, n);
    SizesNeverChange(events, n + 1);
    AfterNext(events, n);
    StepSplits(events, n);
    if ReachesKelvin(events, n) {
      var s, m, data := After(events, n), MethodOf(events[n]), DataOf(events[n]);
      MethodMasked(events[n]);
      ReportKeeps(Store(s, m, data), events[n].call, m, data);
      if cell.Component? || cell.Format? {
        AttributeStores(s, m, data, cell);
      } else if cell.Matrix? || cell.ViewportOffset? || cell.ViewportScale? {
        FixedStores(s, m, data, cell);
      } else {
        CursorFollowed(events, n, ProgramPort);
        CursorFollowed(events, n, ConstantPort);
        ProgramStores(s, m, data, cell, Cursor(events, n, ProgramPort), Cursor(events, n, ConstantPort));
      }
    }
  }

  lemma InitialContent(cell: Cell)
    requires Exists(cell)
    ensures Sizes(Start()) && Content(Start(), cell) == Initial(cell)
  {
  }

  /** After any run every program word, constant, attribute component and format, matrix and
      viewport element holds the last thing written to it. */
  lemma {:induction false} CellsHoldLastWrites(events: seq<Event>, n: nat, cell: Cell)
    requires n <= |events| && Exists(cell)
    ensures Sizes(After(events, n)) && Content(After(events, n), cell) == LastWritten(events, n, cell)
  {
    hide Step, WrittenBy, Content, Start, Initial, Exists, Sizes;
    if n == 0 {
      InitialContent(cell);
    } else {
      CellsHoldLastWrites(events, n - 1, cell);
      if events[n - 1].Method? {
        MethodStep(events, n - 1, cell);
      } else {
        ConstantStep(events, n - 1, cell);
      }
    }
  }

  /** Event `k` stored a program word. */
  predicate StoresWord(events: seq<Event>, k: nat)
    requires k < |events|
  {
    Sends(events, k, ProgramPort) && Cursor(events, k, ProgramPort) < PROGRAM_WORDS
  }

  lemma CountStores(p: Program, m: nat, data: Word, cursor: nat)
    requires |p.words| == PROGRAM_WORDS && Follows(p, ProgramPort, cursor)
    ensures StoreProgram(p, m, data).instructions ==
      if TRANSFORM_PROGRAM <= m < TRANSFORM_PROGRAM + 0x80 && cursor < PROGRAM_WORDS then
        Max(p.instructions, cursor / 4 + 1)
      else p.instructions
  {
  }

  lemma CountStep(events: seq<Event>, n: nat)
    requires n < |events|
    ensures After(events, n + 1).program.instructions ==
      if StoresWord(events, n) then
        Max(After(events, n).program.instructions, Cursor(events, n, ProgramPort) / 4 + 1)
      else After(events, n).program.instructions
  {
    hide Step, After, ReachesKelvin, Store, StoreProgram, Reported, MethodOf, DataOf, Cursor;
    AfterNext(events, n);
    StepSplits(events, n);
    SizesNeverChange(events, n);
    CursorFollowed(events, n, ProgramPort);
    if ReachesKelvin(events, n) {
      var s, m, data := After(events, n), MethodOf(events[n]), DataOf(events[n]);
      StoreProgramPart(s, m, data);
      ReportKeeps(Store(s, m, data), events[n].call, m, data);
      CountStores(s.program, m, data, Cursor(events, n, ProgramPort));
    }
  }

  /** The instruction count is the least that covers every program word stored so far. */
  lemma {:induction false} CountCoversStores(events: seq<Event>, n: nat)
    requires n <= |events|
    ensures var count := After(events, n).program.instructions;
      && (forall k :: 0 <= k < n && StoresWord(events, k) ==> Cursor(events, k, ProgramPort) / 4 < count)
      && (count == 0
          || exists k :: 0 <= k < n && StoresWord(events, k) && Cursor(events, k, ProgramPort) / 4 + 1 == count)
  {
    hide Step, After, StoresWord, Cursor;
    if n == 0 {
      NothingCounted(events);
    } else {
      CountCoversStores(events, n - 1);
      CountStep(events, n - 1);
    }
  }

  lemma NothingCounted(events: seq<Event>)
    ensures After(events, 0).program.instructions == 0
  {
  }

  // ---- A run of uploads ----

  predicate AllSend(events: seq<Event>, n: nat, m: nat, port: Port)
    requires n <= m <= |events|
  {
    forall k :: n <= k < m ==> Sends(events, k, port)
  }

  /** The words the events in [n, m) send. */
  function WordsSent(events: seq<Event>, n: nat, m: nat, port: Port): (words: seq<Word>)
    requires n <= m <= |events| && AllSend(events, n, m, port)
    ensures |words| == m - n
  {
    if n == m then []
    else
      assert Sends(events, m - 1, port);
      WordsSent(events, n, m - 1, port) + [DataOf(events[m - 1])]
  }

  lemma SendStep(events: seq<Event>, n: nat, port: Port)
    requires n < |events| && Sends(events, n, port)
    ensures After(events, n + 1).program ==
      if port == ProgramPort then UploadWord(After(events, n).program, DataOf(events[n]))
      else UploadConstant(After(events, n).program, DataOf(events[n]))
  {
    hide Step, After, ReachesKelvin, Store, Reported, MethodOf, DataOf, UploadWord, UploadConstant;
    AfterNext(events, n);
    StepSplits(events, n);
    var s, m, data := After(events, n), MethodOf(events[n]), DataOf(events[n]);
    StoreProgramPart(s, m, data);
    ReportKeeps(Store(s, m, data), events[n].call, m, data);
  }

  /** Events that send words one after the other store all of them in order from the write
      position on, except those past the end, and change nothing else of the program. */
  lemma {:induction false} UploadRun(events: seq<Event>, n: nat, m: nat, port: Port)
    requires n <= m <= |events| && AllSend(events, n, m, port)
    ensures var words := WordsSent(events, n, m, port);
      After(events, m).program ==
        if port == ProgramPort then Upload(After(events, n).program, words)
        else UploadAllConstants(After(events, n).program, words)
    decreases m - n
  {
    hide After, Sends, UploadWord, UploadConstant, DataOf;
    if n < m {
      UploadRun(events, n, m - 1, port);
      SendStep(events, m - 1, port);
      var words := WordsSent(events, n, m, port);
      assert words[..|words| - 1] == WordsSent(events, n, m - 1, port);
    }
  }

  lemma ProgramUploadRun(events: seq<Event>, n: nat, m: nat)
    requires n <= m <= |events| && AllSend(events, n, m, ProgramPort)
    ensures var p, q := After(events, n).program, After(events, m).program;
      && q.words == Overlay(p.words, p.writeWord, WordsSent(events, n, m, ProgramPort))
      && q == p.(words := q.words, writeWord := q.writeWord, instructions := q.instructions)
      && q.writeWord == (if p.writeWord + (m - n) <= PROGRAM_WORDS then p.writeWord + (m - n)
                         else Max(p.writeWord, PROGRAM_WORDS))
      && q.instructions == (if q.writeWord == p.writeWord then p.instructions
                            else Max(p.instructions, Instructions(q.writeWord)))
  {
    hide After, Sends, Upload, Overlay, DataOf, Instructions;
    SizesNeverChange(events, n);
    UploadRun(events, n, m, ProgramPort);
    UploadOverlays(After(events, n).program, WordsSent(events, n, m, ProgramPort));
  }

  lemma ConstantUploadRun(events: seq<Event>, n: nat, m: nat)
    requires n <= m <= |events| && AllSend(events, n, m, ConstantPort)
    ensures var p, q := After(events, n).program, After(events, m).program;
      && q.constants == Overlay(p.constants, p.constantWriteWord, WordsSent(events, n, m, ConstantPort))
      && q == p.(constants := q.constants, constantWriteWord := q.constantWriteWord)
      && q.constantWriteWord == (if p.constantWriteWord + (m - n) <= CONSTANT_WORDS then p.constantWriteWord + (m - n)
                                 else Max(p.constantWriteWord, CONSTANT_WORDS))
  {
    hide After, Sends, UploadAllConstants, Overlay, DataOf;
    SizesNeverChange(events, n);
    UploadRun(events, n, m, ConstantPort);
    ConstantUploadOverlays(After(events, n).program, WordsSent(events, n, m, ConstantPort));
  }
}
