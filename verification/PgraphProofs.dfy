/** What holds over every run of the PGRAPH replay (nv2a_capture.py: PgraphReplayState.apply_method). */
module PgraphProofs {
  import opened Numbers
  import opened Wrappers
  import opened Pgraph

  datatype Event =
    | Method(call: Call, objects: Objects)
    | Constant(index: int, words: seq<Word>)

  function Step(s: State, e: Event): (State, Option<Checkpoint>) {
    match e
    case Method(call, objects) => Apply(s, call, objects)
    case Constant(index, words) => (SetConstant(s, index, words), None)
  }

  function After(events: seq<Event>, n: nat): State
    requires n <= |events|
  {
    if n == 0 then Start() else Step(After(events, n - 1), events[n - 1]).0
  }

  /** What event `n` reports. */
  function CheckpointOf(events: seq<Event>, n: nat): Option<Checkpoint>
    requires n < |events|
  {
    Step(After(events, n), events[n]).1
  }

  // ---- Sizes ----

  ghost predicate Sizes(s: State) {
    && |s.classes| == 8 && |s.registers| == REGISTERS
    && |s.program.words| == PROGRAM_WORDS && |s.program.constants| == CONSTANT_WORDS
    && |s.fixed.matrix| == 16 && |s.fixed.offset| == 4 && |s.fixed.scale| == 4
    && |s.attributes.values| == VERTEX_WORDS && |s.attributes.formats| == 16
  }

  lemma StoreKeepsSizes(s: State, m: nat, data: Word)
    requires Sizes(s)
    ensures Sizes(Store(s, m, data))
  {
    hide StoreBatch;
  }

  lemma ReportKeeps(s: State, c: Call, m: nat, data: Word)
    ensures var t := Reported(s, c, m, data).0;
      && t.classes == s.classes && t.registers == s.registers && t.program == s.program
      && t.fixed == s.fixed && t.attributes == s.attributes
      && (m != BEGIN_END ==> t.batch == s.batch && t.beginOp == s.beginOp)
  {
  }

  lemma StepKeepsSizes(s: State, e: Event)
    requires Sizes(s)
    ensures Sizes(Step(s, e).0)
  {
    hide Store, Reported, Resolve, Masked;
    if e.Method? {
      var data, m := Resolve(e.objects, e.call.method_, e.call.data), Masked(e.call.method_);
      StoreKeepsSizes(s, m, data);
      ReportKeeps(Store(s, m, data), e.call, m, data);
    }
  }

  lemma {:induction false} SizesNeverChange(events: seq<Event>, n: nat)
    requires n <= |events|
    ensures Sizes(After(events, n))
  {
    hide Step;
    if n == 0 {
    } else {
      SizesNeverChange(events, n - 1);
      StepKeepsSizes(After(events, n - 1), events[n - 1]);
    }
  }

  // ---- The class of a subchannel ----

  /** The class bound to a channel by the calls before event `n`; zero when none. */
  function Bound(events: seq<Event>, n: nat, channel: nat): Word
    requires n <= |events|
  {
    if n == 0 then 0
    else
      var e := events[n - 1];
      if e.Method? && e.call.method_ == 0 && e.call.subchannel % 8 == channel then ObjectClass(e.objects, e.call.data)
      else Bound(events, n - 1, channel)
  }

  /** Event `n` is a method call that reaches the Kelvin object. */
  predicate ReachesKelvin(events: seq<Event>, n: nat): (r: bool)
    requires n < |events|
    ensures r ==> events[n].Method?
  {
    && events[n].Method? && events[n].call.method_ != 0
    && var bound := Bound(events, n, events[n].call.subchannel % 8);
    bound == 0 || bound == KELVIN
  }

  /** The method and data of an event as the units see them. */
  function MethodOf(e: Event): nat
    requires e.Method?
  {
    Masked(e.call.method_)
  }

  function DataOf(e: Event): Word
    requires e.Method?
  {
    Resolve(e.objects, e.call.method_, e.call.data)
  }

  lemma StepClasses(s: State, e: Event, channel: nat)
    requires |s.classes| == 8 && channel < 8
    ensures |Step(s, e).0.classes| == 8
    ensures Step(s, e).0.classes[channel] ==
      if e.Method? && e.call.method_ == 0 && e.call.subchannel % 8 == channel then ObjectClass(e.objects, e.call.data)
      else s.classes[channel]
  {
    hide Store, Reported, Resolve, Masked, ObjectClass;
    if e.Method? {
      var data, m := Resolve(e.objects, e.call.method_, e.call.data), Masked(e.call.method_);
      StoreKeepsClasses(s, m, data);
      ReportKeeps(Store(s, m, data), e.call, m, data);
    }
  }

  lemma StoreKeepsClasses(s: State, m: nat, data: Word)
    ensures Store(s, m, data).classes == s.classes
    ensures Store(s, m, data).checkpoints == s.checkpoints && Store(s, m, data).beginOp == s.beginOp
  {
  }

  lemma {:induction false} ClassesFollowBindings(events: seq<Event>, n: nat, channel: nat)
    requires n <= |events| && channel < 8
    ensures |After(events, n).classes| == 8 && After(events, n).classes[channel] == Bound(events, n, channel)
  {
    hide Step, ObjectClass;
    if n != 0 {
      ClassesFollowBindings(events, n - 1, channel);
      StepClasses(After(events, n - 1), events[n - 1], channel);
    }
  }

  /** Only calls that reach the Kelvin object store anything but a class, or report anything. */
  lemma StepSplits(events: seq<Event>, n: nat)
    requires n < |events|
    ensures var s, e := After(events, n), events[n];
      if ReachesKelvin(events, n) then
        Step(s, e) == Reported(Store(s, MethodOf(e), DataOf(e)), e.call, MethodOf(e), DataOf(e))
      else if e.Method? then
        && Step(s, e).1 == None
        && Step(s, e).0 == s.(classes := Step(s, e).0.classes)
      else
        && Step(s, e).1 == None
        && Step(s, e).0 == s.(program := s.program.(constants := Step(s, e).0.program.constants))
  {
    hide Store, Reported, Resolve, Masked, ObjectClass, After, Bound, Put;
    var e := events[n];
    if e.Method? {
      ClassesFollowBindings(events, n, e.call.subchannel % 8);
    }
  }

  // ---- The batch in progress ----

  /** Everything sent since the last BEGIN or END, with no bound. */
  datatype Sent = Sent(indices: seq<Word>, inline: seq<Word>, vertices: seq<seq<Word>>)

  const NOTHING := Sent([], [], [])

  function SentBy(sent: Sent, m: nat, data: Word, attributes: seq<Word>): Sent {
    if m == BEGIN_END then NOTHING
    else if m == ARRAY_ELEMENT16 then sent.(indices := sent.indices + [data % 0x1_0000] + [data / 0x1_0000])
    else if m == ARRAY_ELEMENT32 then sent.(indices := sent.indices + [data])
    else if m == INLINE_ARRAY then sent.(inline := sent.inline + [data])
    else if m == VERTEX4F + 12 then sent.(vertices := sent.vertices + [attributes])
    else sent
  }

  function Pending(events: seq<Event>, n: nat): Sent
    requires n <= |events|
  {
    if n == 0 then NOTHING
    else if !ReachesKelvin(events, n - 1) then Pending(events, n - 1)
    else
      SentBy(Pending(events, n - 1), MethodOf(events[n - 1]), DataOf(events[n - 1]), After(events, n).attributes.values)
  }

  function Flatten(vs: seq<seq<Word>>): seq<Word> {
    if vs == [] then [] else Flatten(vs[..|vs| - 1]) + vs[|vs| - 1]
  }

  const VERTEX_CAPACITY: nat := 1024

  ghost predicate VerticesCollected(b: Batch, vertices: seq<seq<Word>>) {
    && (forall k :: 0 <= k < |vertices| ==> |vertices[k]| == VERTEX_WORDS)
    && b.vertices == |First(vertices, VERTEX_CAPACITY)|
    && b.vertexWords == Flatten(First(vertices, VERTEX_CAPACITY))
    && (b.vertexOverflow <==> |vertices| > VERTEX_CAPACITY)
  }

  /** The buffers hold the first items sent, as many as they have room for, and each overflow
      flag tells whether something was dropped. */
  ghost predicate Collected(b: Batch, sent: Sent) {
    && b.indices == First(sent.indices, ELEMENT_CAPACITY)
    && b.inline == First(sent.inline, INLINE_CAPACITY)
    && (b.inlineOverflow <==> |sent.inline| > INLINE_CAPACITY)
    && VerticesCollected(b, sent.vertices)
  }

  lemma FirstGrows<T>(s: seq<T>, k: nat, x: T)
    ensures |First(s, k)| == if |s| < k then |s| else k
    ensures First(s + [x], k) == if |First(s, k)| < k then First(s, k) + [x] else First(s, k)
  {
  }

  lemma {:induction false} FlattenSize(vs: seq<seq<Word>>)
    requires forall k :: 0 <= k < |vs| ==> |vs[k]| == VERTEX_WORDS
    ensures |Flatten(vs)| == VERTEX_WORDS * |vs|
  {
    if vs == [] {
    } else {
      FlattenSize(vs[..|vs| - 1]);
    }
  }

  lemma IndexCollected(b: Batch, sent: Sent, x: Word)
    requires Collected(b, sent)
    ensures Collected(AddIndex(b, x), sent.(indices := sent.indices + [x]))
  {
    hide First, Flatten;
    FirstGrows(sent.indices, ELEMENT_CAPACITY, x);
  }

  lemma InlineCollected(b: Batch, sent: Sent, x: Word)
    requires Collected(b, sent)
    ensures Collected(AddInline(b, x), sent.(inline := sent.inline + [x]))
  {
    hide First, Flatten;
    FirstGrows(sent.inline, INLINE_CAPACITY, x);
  }

  lemma VertexCollected(b: Batch, sent: Sent, v: seq<Word>)
    requires Collected(b, sent) && |v| == VERTEX_WORDS
    ensures Collected(AddVertex(b, v), sent.(vertices := sent.vertices + [v]))
  {
    hide First, Flatten;
    var stored := First(sent.vertices, VERTEX_CAPACITY);
    FirstGrows(sent.vertices, VERTEX_CAPACITY, v);
    FirstOfAll(sent.vertices, VERTEX_CAPACITY);
    FlattenSize(stored);
    FlattenGrows(stored, v);
  }

  lemma FirstOfAll(vs: seq<seq<Word>>, k: nat)
    requires forall i :: 0 <= i < |vs| ==> |vs[i]| == VERTEX_WORDS
    ensures forall i :: 0 <= i < |First(vs, k)| ==> |First(vs, k)[i]| == VERTEX_WORDS
  {
  }

  lemma FlattenGrows(vs: seq<seq<Word>>, v: seq<Word>)
    ensures Flatten(vs + [v]) == Flatten(vs) + v
  {
    assert (vs + [v])[..|vs + [v]| - 1] == vs;
  }

  lemma NothingCollected()
    ensures Collected(NO_BATCH, NOTHING)
  {
  }

  lemma StoreCollects(b: Batch, sent: Sent, m: nat, data: Word, attributes: seq<Word>)
    requires Collected(b, sent) && |attributes| == VERTEX_WORDS && m % 4 == 0 && m != BEGIN_END
    ensures Collected(StoreBatch(b, attributes, m, data), SentBy(sent, m, data, attributes))
  {
    hide Collected, AddIndex, AddInline, AddVertex;
    if m == ARRAY_ELEMENT16 {
      IndexCollected(b, sent, data % 0x1_0000);
      IndexCollected(AddIndex(b, data % 0x1_0000), sent.(indices := sent.indices + [data % 0x1_0000]), data / 0x1_0000);
    } else if m == ARRAY_ELEMENT32 {
      IndexCollected(b, sent, data);
    } else if m == INLINE_ARRAY {
      InlineCollected(b, sent, data);
    } else if m == VERTEX4F + 12 {
      VertexCollected(b, sent, attributes);
    }
  }

  /** An empty batch has its overflow flags clear. */
  lemma EmptyBatch(b: Batch, sent: Sent)
    requires Collected(b, sent) && BatchKind(b) == None
    ensures b == NO_BATCH
  {
  }

  lemma MaskedAligned(m: nat)
    ensures Masked(m) % 4 == 0 && Masked(m) < 0x2000
  {
    assert m % 0x2000 % 4 == m % 4 by { assert m == m / 0x2000 * 0x2000 + m % 0x2000; Fours(m / 0x2000, m % 0x2000); }
  }

  lemma Fours(q: nat, r: nat)
    ensures (q * 0x2000 + r) % 4 == r % 4
  {
    assert (q * 0x2000 + r) / 4 == q * 0x800 + r / 4;
  }

  lemma MethodMasked(e: Event)
    requires e.Method?
    ensures MethodOf(e) % 4 == 0
  {
    hide Masked;
    MaskedAligned(e.call.method_);
  }

  lemma AfterNext(events: seq<Event>, n: nat)
    requires n < |events|
    ensures After(events, n + 1) == Step(After(events, n), events[n]).0
  {
    hide Step;
  }

  lemma PendingNext(events: seq<Event>, n: nat)
    requires n < |events|
    ensures Pending(events, n + 1) ==
      if !ReachesKelvin(events, n) then Pending(events, n)
      else SentBy(Pending(events, n), MethodOf(events[n]), DataOf(events[n]), After(events, n + 1).attributes.values)
  {
    hide SentBy, ReachesKelvin, After;
  }

  lemma StoreParts(s: State, m: nat, data: Word)
    ensures var t := Store(s, m, data);
      && t.attributes == StoreAttributes(s.attributes, m, data)
      && t.batch == StoreBatch(s.batch, t.attributes.values, m, data)
  {
    hide StoreAttributes, StoreBatch;
  }

  lemma BeginEndEmpties(s: State, sent: Sent, c: Call, data: Word)
    requires Collected(s.batch, sent)
    ensures BeginOrEnd(s, c, data).0.batch == NO_BATCH && BeginOrEnd(s, c, data).0.beginOp == data
  {
    hide Collected;
    if BatchKind(s.batch) == None {
      EmptyBatch(s.batch, sent);
    }
  }

  lemma KelvinStep(s: State, sent: Sent, c: Call, m: nat, data: Word, attributes: seq<Word>)
    requires Collected(s.batch, sent) && m % 4 == 0 && |attributes| == VERTEX_WORDS
    requires attributes == Reported(Store(s, m, data), c, m, data).0.attributes.values
    ensures Collected(Reported(Store(s, m, data), c, m, data).0.batch, SentBy(sent, m, data, attributes))
  {
    hide Collected, Store, StoreBatch, StoreAttributes, SentBy, BeginOrEnd;
    var stored := Store(s, m, data);
    StoreParts(s, m, data);
    ReportKeeps(stored, c, m, data);
    if m == BEGIN_END {
      BeginEndStores(s.batch, attributes, sent, data);
      BeginEndEmpties(stored, sent, c, data);
      NothingCollected();
    } else {
      StoreCollects(s.batch, sent, m, data, attributes);
    }
  }

  lemma BeginEndStores(b: Batch, attributes: seq<Word>, sent: Sent, data: Word)
    ensures StoreBatch(b, attributes, BEGIN_END, data) == b
    ensures SentBy(sent, BEGIN_END, data, attributes) == NOTHING
  {
  }

  lemma BatchStep(events: seq<Event>, n: nat)
    requires n < |events| && Collected(After(events, n).batch, Pending(events, n))
    ensures Collected(After(events, n + 1).batch, Pending(events, n + 1))
  {
    hide Collected, ReachesKelvin, After, Pending, Step, Store, Reported, MethodOf, DataOf;
    AfterNext(events, n);
    PendingNext(events, n);
    StepSplits(events, n);
    SizesNeverChange(events, n + 1);
    if ReachesKelvin(events, n) {
      var s, m, data := After(events, n), MethodOf(events[n]), DataOf(events[n]);
      MethodMasked(events[n]);
      KelvinStep(s, Pending(events, n), events[n].call, m, data, After(events, n + 1).attributes.values);
    }
  }

  /** After any run the batch buffers hold the first items sent since the last BEGIN or END. */
  lemma {:induction false} BuffersHoldFirstSent(events: seq<Event>, n: nat)
    requires n <= |events|
    ensures Collected(After(events, n).batch, Pending(events, n))
  {
    hide Collected, Step, ReachesKelvin, SentBy;
    if n == 0 {
      NothingCollected();
    } else {
      BuffersHoldFirstSent(events, n - 1);
      BatchStep(events, n - 1);
    }
  }

  /** A BEGIN or END, whatever came before it, leaves every batch buffer and flag empty. */
  lemma BeginOrEndEmptiesBatch(events: seq<Event>, n: nat)
    requires n < |events| && ReachesKelvin(events, n) && MethodOf(events[n]) == BEGIN_END
    ensures After(events, n + 1).batch == NO_BATCH && After(events, n + 1).beginOp == DataOf(events[n])
  {
    hide Collected, ReachesKelvin, After, Pending, Step, Store, MethodOf, DataOf, BeginOrEnd;
    var s, data := After(events, n), DataOf(events[n]);
    AfterNext(events, n);
    StepSplits(events, n);
    BuffersHoldFirstSent(events, n);
    StoreParts(s, BEGIN_END, data);
    var stored := Store(s, BEGIN_END, data);
    BeginEndStores(s.batch, stored.attributes.values, Pending(events, n), data);
    BeginEndEmpties(stored, Pending(events, n), events[n].call, data);
  }

  /** What END reports, in terms of everything sent since BEGIN: vertices win over inline words,
      inline words over indices, and a batch is reported with the part the buffers had room for. */
  ghost predicate ReportsBatch(r: Option<Checkpoint>, sent: Sent) {
    if sent.vertices != [] then
      r.Some? && r.value.kind == ImmediateBatch && r.value.count == |First(sent.vertices, VERTEX_CAPACITY)|
      && r.value.indices == [] && r.value.state.batch.vertexWords == Flatten(First(sent.vertices, VERTEX_CAPACITY))
    else if sent.inline != [] then
      r.Some? && r.value.kind == InlineBatch && r.value.count == |First(sent.inline, INLINE_CAPACITY)|
      && r.value.indices == [] && r.value.state.batch.inline == First(sent.inline, INLINE_CAPACITY)
    else if sent.indices != [] then
      r.Some? && r.value.kind == IndexedBatch && r.value.indices == First(sent.indices, ELEMENT_CAPACITY)
      && r.value.count == |First(sent.indices, ELEMENT_CAPACITY)|
    else r == None
  }

  lemma FirstEmpty<T>(s: seq<T>, k: nat)
    requires k > 0
    ensures First(s, k) == [] <==> s == []
  {
  }

  lemma EndReportsCollected(s: State, sent: Sent, c: Call)
    requires Collected(s.batch, sent)
    ensures ReportsBatch(BeginOrEnd(s, c, 0).1, sent)
  {
    hide First, Flatten;
    FirstEmpty(sent.vertices, VERTEX_CAPACITY);
    FirstEmpty(sent.inline, INLINE_CAPACITY);
    FirstEmpty(sent.indices, ELEMENT_CAPACITY);
  }

  lemma EndReportsBatch(events: seq<Event>, n: nat)
    requires n < |events| && ReachesKelvin(events, n) && MethodOf(events[n]) == BEGIN_END && DataOf(events[n]) == 0
    ensures ReportsBatch(CheckpointOf(events, n), Pending(events, n))
  {
    hide Collected, ReachesKelvin, After, Pending, Step, Store, MethodOf, DataOf, BeginOrEnd, ReportsBatch;
    var s := After(events, n);
    StepSplits(events, n);
    BuffersHoldFirstSent(events, n);
    StoreParts(s, BEGIN_END, 0);
    var stored := Store(s, BEGIN_END, 0);
    BeginEndStores(s.batch, stored.attributes.values, Pending(events, n), 0);
    EndReportsCollected(stored, Pending(events, n), events[n].call);
  }

  /** The limits of the buffers over every run. */
  lemma BufferLimits(events: seq<Event>, n: nat)
    requires n <= |events|
    ensures var b := After(events, n).batch;
      && |b.indices| <= ELEMENT_CAPACITY && |b.inline| <= INLINE_CAPACITY
      && |b.vertexWords| == VERTEX_WORDS * b.vertices && |b.vertexWords| <= INLINE_CAPACITY
      && (b.inlineOverflow ==> |b.inline| == INLINE_CAPACITY)
      && (b.vertexOverflow ==> |b.vertexWords| == INLINE_CAPACITY)
  {
    hide After, Pending;
    BuffersHoldFirstSent(events, n);
    var sent := Pending(events, n);
    FirstOfAll(sent.vertices, VERTEX_CAPACITY);
    FlattenSize(First(sent.vertices, VERTEX_CAPACITY));
  }

  // ---- The vertex program ----

  /** The instruction count is bounded, and every word behind the counted instructions is unwritten. */
  ghost predicate ProgramCounted(p: Program) {
    && |p.words| == PROGRAM_WORDS && p.instructions <= 136
    && forall i :: 4 * p.instructions <= i < PROGRAM_WORDS ==> p.words[i] == 0
  }

  lemma UploadCounted(p: Program, data: Word)
    requires ProgramCounted(p)
    ensures ProgramCounted(UploadWord(p, data))
  {
  }

  lemma StoreCounted(p: Program, m: nat, data: Word)
    requires ProgramCounted(p)
    ensures ProgramCounted(StoreProgram(p, m, data))
  {
    hide UploadWord;
    UploadCounted(p, data);
  }

  lemma StoreProgramPart(s: State, m: nat, data: Word)
    ensures Store(s, m, data).program == StoreProgram(s.program, m, data)
    ensures Store(s, m, data).registers == Put(s.registers, m / 4, data)
  {
    hide StoreProgram, Put;
  }

  lemma {:induction false} ProgramStaysCounted(events: seq<Event>, n: nat)
    requires n <= |events|
    ensures ProgramCounted(After(events, n).program)
  {
    hide Step, ReachesKelvin, Store, StoreProgram, Reported, MethodOf, DataOf;
    if n == 0 {
    } else {
      var s, e := After(events, n - 1), events[n - 1];
      ProgramStaysCounted(events, n - 1);
      StepSplits(events, n - 1);
      if ReachesKelvin(events, n - 1) {
        StoreProgramPart(s, MethodOf(e), DataOf(e));
        StoreCounted(s.program, MethodOf(e), DataOf(e));
        ReportKeeps(Store(s, MethodOf(e), DataOf(e)), e.call, MethodOf(e), DataOf(e));
      }
    }
  }

  /** An upload: the words written one after the other. */
  function Upload(p: Program, words: seq<Word>): Program {
    if words == [] then p else UploadWord(Upload(p, words[..|words| - 1]), words[|words| - 1])
  }

  /** `words` written over `old` from `at`; what does not fit is dropped. */
  function Overlay(old_: seq<Word>, at: nat, words: seq<Word>): seq<Word> {
    seq(|old_|, i requires 0 <= i < |old_| => if at <= i < at + |words| then words[i - at] else old_[i])
  }

  lemma OverlayNext(old_: seq<Word>, at: nat, words: seq<Word>)
    ensures Overlay(old_, at, []) == old_
    ensures words != [] ==>
      var init, last := words[..|words| - 1], words[|words| - 1];
      Overlay(old_, at, words) == Put(Overlay(old_, at, init), at + |words| - 1, last)
  {
    assert Overlay(old_, at, []) == old_;
    if words != [] {
      var init, last := words[..|words| - 1], words[|words| - 1];
      assert Overlay(old_, at, words) == Put(Overlay(old_, at, init), at + |words| - 1, last);
    }
  }

  /** Instructions that hold the words before `end`. */
  function Instructions(end: nat): nat { (end + 3) / 4 }

  lemma InstructionsGrow(count: nat, end: nat)
    ensures Max(Max(count, Instructions(end)), Instructions(end + 1)) == Max(count, Instructions(end + 1))
  {
  }

  /** An upload of any length from any write position stores exactly its words in order, drops
      those past the end, and leaves everything else alone. */
  lemma {:induction false} UploadOverlays(p: Program, words: seq<Word>)
    ensures var q := Upload(p, words);
      && q.words == Overlay(p.words, p.writeWord, words)
      && q.writeWord ==
        (if p.writeWord + |words| <= |p.words| then p.writeWord + |words| else Max(p.writeWord, |p.words|))
      && q.instructions == (if q.writeWord == p.writeWord then p.instructions
                            else Max(p.instructions, Instructions(q.writeWord)))
      && q == p.(words := q.words, writeWord := q.writeWord, instructions := q.instructions)
  {
    hide Overlay, Instructions;
    OverlayNext(p.words, p.writeWord, words);
    if words != [] {
      var init := words[..|words| - 1];
      UploadOverlays(p, init);
      UploadStep(p, Upload(p, init), words);
    }
  }

  lemma UploadStep(p: Program, q: Program, words: seq<Word>)
    requires words != []
    requires var init := words[..|words| - 1];
      && q.words == Overlay(p.words, p.writeWord, init)
      && q.writeWord ==
        (if p.writeWord + |init| <= |p.words| then p.writeWord + |init| else Max(p.writeWord, |p.words|))
      && q.instructions == (if q.writeWord == p.writeWord then p.instructions
                            else Max(p.instructions, Instructions(q.writeWord)))
      && q == p.(words := q.words, writeWord := q.writeWord, instructions := q.instructions)
    ensures var r := UploadWord(q, words[|words| - 1]);
      && r.words == Overlay(p.words, p.writeWord, words)
      && r.writeWord ==
        (if p.writeWord + |words| <= |p.words| then p.writeWord + |words| else Max(p.writeWord, |p.words|))
      && r.instructions == (if r.writeWord == p.writeWord then p.instructions
                            else Max(p.instructions, Instructions(r.writeWord)))
      && r == p.(words := r.words, writeWord := r.writeWord, instructions := r.instructions)
  {
    OverlayNext(p.words, p.writeWord, words);
    OverlaySize(p.words, p.writeWord, words[..|words| - 1]);
    InstructionsGrow(p.instructions, q.writeWord);
    hide Overlay;
  }

  lemma OverlaySize(old_: seq<Word>, at: nat, words: seq<Word>)
    ensures |Overlay(old_, at, words)| == |old_|
  {
  }

  // ---- The register file ----

  /** The last data a Kelvin method before event `n` wrote to register `r`. */
  function LastWrite(events: seq<Event>, n: nat, r: nat): Word
    requires n <= |events| && r < REGISTERS
  {
    if n == 0 then DefaultRegisters()[r]
    else if ReachesKelvin(events, n - 1) && MethodOf(events[n - 1]) / 4 == r then DataOf(events[n - 1])
    else LastWrite(events, n - 1, r)
  }

  lemma {:induction false} RegistersHoldLastWrites(events: seq<Event>, n: nat, r: nat)
    requires n <= |events| && r < REGISTERS
    ensures |After(events, n).registers| == REGISTERS && After(events, n).registers[r] == LastWrite(events, n, r)
  {
    hide Step, ReachesKelvin, Store, Reported, MethodOf, DataOf, DefaultRegisters;
    SizesNeverChange(events, n);
    if n == 0 {
    } else {
      var s, e := After(events, n - 1), events[n - 1];
      RegistersHoldLastWrites(events, n - 1, r);
      StepSplits(events, n - 1);
      if ReachesKelvin(events, n - 1) {
        StoreProgramPart(s, MethodOf(e), DataOf(e));
        ReportKeeps(Store(s, MethodOf(e), DataOf(e)), e.call, MethodOf(e), DataOf(e));
      }
    }
  }

  // ---- Checkpoints ----

  /** The checkpoints reported before event `n`, in order. */
  function Checkpoints(events: seq<Event>, n: nat): seq<Checkpoint>
    requires n <= |events|
  {
    if n == 0 then []
    else match CheckpointOf(events, n - 1)
      case None => Checkpoints(events, n - 1)
      case Some(r) => Checkpoints(events, n - 1) + [r]
  }

  lemma ReportCounts(s: State, c: Call, m: nat, data: Word)
    ensures var r := Reported(s, c, m, data);
      if r.1 == None then r.0.checkpoints == s.checkpoints
      else r.0.checkpoints == s.checkpoints + 1 && r.1.value.sequence == s.checkpoints
  {
  }

  /** Checkpoints are numbered from zero without a gap. */
  lemma {:induction false} CheckpointsNumbered(events: seq<Event>, n: nat)
    requires n <= |events|
    ensures After(events, n).checkpoints == |Checkpoints(events, n)|
    ensures forall k :: 0 <= k < |Checkpoints(events, n)| ==> Checkpoints(events, n)[k].sequence == k
  {
    hide Step, ReachesKelvin, Store, Reported, MethodOf, DataOf;
    if n != 0 {
      var s, e := After(events, n - 1), events[n - 1];
      CheckpointsNumbered(events, n - 1);
      StepSplits(events, n - 1);
      if ReachesKelvin(events, n - 1) {
        StoreKeepsClasses(s, MethodOf(e), DataOf(e));
        ReportCounts(Store(s, MethodOf(e), DataOf(e)), e.call, MethodOf(e), DataOf(e));
      }
    }
  }

  // ---- Constants, attributes and fixed-function transform ----

  function UploadAllConstants(p: Program, words: seq<Word>): Program {
    if words == [] then p else UploadConstant(UploadAllConstants(p, words[..|words| - 1]), words[|words| - 1])
  }

  /** A constant upload stores exactly its words in order and drops those past the end. */
  lemma {:induction false} ConstantUploadOverlays(p: Program, words: seq<Word>)
    ensures var q := UploadAllConstants(p, words);
      && q.constants == Overlay(p.constants, p.constantWriteWord, words)
      && q.constantWriteWord == (if p.constantWriteWord + |words| <= |p.constants| then p.constantWriteWord + |words|
                                 else Max(p.constantWriteWord, |p.constants|))
      && q == p.(constants := q.constants, constantWriteWord := q.constantWriteWord)
  {
    hide Overlay;
    OverlayNext(p.constants, p.constantWriteWord, words);
    if words != [] {
      var init := words[..|words| - 1];
      OverlaySize(p.constants, p.constantWriteWord, init);
      ConstantUploadOverlays(p, init);
    }
  }

  /** A constant set from a state record replaces its four words and nothing else; an index or a
      size out of range changes nothing. */
  lemma SetConstantExact(s: State, index: int, words: seq<Word>)
    requires |s.program.constants| == CONSTANT_WORDS
    ensures var t := SetConstant(s, index, words);
      if 0 <= index < 192 && |words| == 4 then
        t == s.(program := s.program.(constants := Overlay(s.program.constants, index * 4, words)))
      else t == s
  {
    if 0 <= index < 192 && |words| == 4 {
      assert SetConstant(s, index, words).program.constants == Overlay(s.program.constants, index * 4, words);
    }
  }
}
