/** Scheduling of a pixel replay: records drive the PGRAPH state and the pixel backend, draws wait
    for the memory records behind them, and a draw or clear that raises ends it (nv2a_capture.py: replay_pixels,
    scanout_memory_records, OfflinePixelReplay.execute_draw). */
module PixelReplay {
  import opened Wrappers
  import opened Pgraph
  import opened PixelSurface
  import opened PixelDraw

  datatype Record =
    | Ramin(objects: Objects)
    | Memory(address: nat, data: seq<nat>)
    | MethodRecord(frame: nat, subchannel: nat, method_: nat, word: Word)
    | ConstantRecord(index: int, words: seq<Word>)
    | Scanout(frame: nat, size: nat)
    | OtherRecord

  /** What the backend is asked to do. */
  datatype Action =
    | SetRamin(objects: Objects)
    | Observe(address: nat, data: seq<nat>)
    | Draw(state: State, checkpoint: Checkpoint, objects: Objects)
    | ClearSurface(state: State, frame: nat, flags: Word)
    | PresentSurface(state: State, frame: nat)
    | Unsupported(kind: Kind)
    | ValidateScanout(frame: nat, size: nat)

  // ---- Scanout reads ----

  /** A memory record directly before a scanout of its size is the scanout's own read. */
  predicate IsScanoutRead(records: seq<Record>, i: nat) {
    && i + 1 < |records| && records[i].Memory? && records[i + 1].Scanout?
    && records[i + 1].size == |records[i].data|
  }

  method ScanoutMemoryRecords(records: seq<Record>) returns (excluded: set<nat>)
    ensures forall i: nat :: i in excluded <==> IsScanoutRead(records, i)
  {
    excluded := {};
    var previous: Option<(nat, nat)> := None;
    for index := 0 to |records|
      invariant previous ==
        if index > 0 && records[index - 1].Memory? then Some((index - 1, |records[index - 1].data|)) else None
      invariant forall i: nat :: i in excluded <==> i + 1 < index && IsScanoutRead(records, i)
    {
      if records[index].Scanout? {
        if previous != None && previous.value.1 == records[index].size {
          excluded := excluded + {previous.value.0};
        }
      }
      previous := None;
      if records[index].Memory? {
        previous := Some((index, |records[index].data|));
      }
    }
  }

  // ---- The state a record meets ----

  /** PGRAPH state, RAMIN objects and number of methods so far. */
  datatype Front = Front(state: State, objects: Objects, methods: nat)

  function CallOf(r: Record, index: nat, methods: nat): Call
    requires r.MethodRecord?
  {
    Call(r.frame, r.subchannel, r.method_, r.word, index, methods)
  }

  function Advance(f: Front, r: Record, index: nat): Front {
    match r
    case Ramin(objects) => f.(objects := objects)
    case MethodRecord(_, _, _, _) =>
      Front(Apply(f.state, CallOf(r, index, f.methods), f.objects).0, f.objects, f.methods + 1)
    case ConstantRecord(index, words) => f.(state := SetConstant(f.state, index, words))
    case _ => f
  }

  function ReportOf(f: Front, r: Record, index: nat): Option<Checkpoint> {
    if r.MethodRecord? then Apply(f.state, CallOf(r, index, f.methods), f.objects).1 else None
  }

  /** The front before record `n`. */
  function FrontAt(records: seq<Record>, n: nat): Front
    requires n <= |records|
  {
    if n == 0 then Front(Start(), map[], 0) else Advance(FrontAt(records, n - 1), records[n - 1], n - 1)
  }

  function CheckpointAt(records: seq<Record>, n: nat): Option<Checkpoint>
    requires n < |records|
  {
    ReportOf(FrontAt(records, n), records[n], n)
  }

  predicate IsDraw(c: Option<Checkpoint>) {
    c.Some? && IsDrawKind(c.value.kind)
  }

  predicate IsOtherBatch(c: Option<Checkpoint>) {
    c.Some? && (c.value.kind == ImmediateBatch || c.value.kind == InlineBatch)
  }

  // ---- What the backend should be asked ----

  /** The first record from `n` on that is not a memory record. */
  function BehindMemory(records: seq<Record>, n: nat): (m: nat)
    requires n <= |records|
    ensures n <= m <= |records| && (m == |records| || !records[m].Memory?)
    ensures forall k :: n <= k < m ==> records[k].Memory?
    decreases |records| - n
  {
    if n < |records| && records[n].Memory? then BehindMemory(records, n + 1) else n
  }

  /** The observations of the records in [n, m). */
  function Observations(records: seq<Record>, n: nat, m: nat): seq<Action>
    requires n <= m <= |records|
  {
    if n == m then []
    else
      var r := records[m - 1];
      Observations(records, n, m - 1)
      + if r.Memory? && !IsScanoutRead(records, m - 1) then [Observe(r.address, r.data)] else []
  }

  /** What record `n` asks at once; a draw asks nothing at once. */
  function AtOnce(records: seq<Record>, n: nat): seq<Action>
    requires n < |records|
  {
    var r, c, after := records[n], CheckpointAt(records, n), FrontAt(records, n + 1);
    match r
    case Ramin(objects) => [SetRamin(objects)]
    case Memory(address, data) => if IsScanoutRead(records, n) then [] else [Observe(address, data)]
    case MethodRecord(frame, _, _, _) => if c == None then [] else AtCheckpoint(c.value, after, frame)
    case Scanout(frame, size) => [ValidateScanout(frame, size)]
    case _ => []
  }

  function AtCheckpoint(c: Checkpoint, after: Front, frame: nat): seq<Action> {
    match c.kind
    case Clear => [ClearSurface(after.state, frame, c.data)]
    case Present => [PresentSurface(after.state, frame)]
    case DrawArrays => []
    case IndexedBatch => []
    case ImmediateBatch => [Unsupported(c.kind)]
    case InlineBatch => [Unsupported(c.kind)]
  }

  /** The draw of record `n`, on the state and objects of its checkpoint. */
  function DrawOf(records: seq<Record>, n: nat): Action
    requires n < |records| && IsDraw(CheckpointAt(records, n))
  {
    Draw(FrontAt(records, n + 1).state, CheckpointAt(records, n).value, FrontAt(records, n + 1).objects)
  }

  /** From record `n` on: a draw comes after exactly the memory records directly behind it and
      before anything else. */
  function Asked(records: seq<Record>, n: nat): seq<Action>
    requires n <= |records|
    decreases |records| - n
  {
    if n == |records| then []
    else if IsDraw(CheckpointAt(records, n)) then
      var m := BehindMemory(records, n + 1);
      Observations(records, n + 1, m) + [DrawOf(records, n)] + Asked(records, m)
    else AtOnce(records, n) + Asked(records, n + 1)
  }

  // ---- What becomes of draws and batches ----

  /** The counters of a replay. */
  datatype Account = Account(draws: nat, textured: nat, triangles: nat, clears: nat, presents: nat,
                             unsupported: map<Reason, nat>)

  function Noted(m: map<Reason, nat>, r: Reason): map<Reason, nat> {
    m[r := (if r in m then m[r] else 0) + 1]
  }

  /** A draw is executed with all its triangles, or counted under the first reason against it, or
      raises and is not counted. */
  ghost function Drawn(a: Account, s: State, c: Checkpoint, inputs: Inputs): Account {
    match DrawFault(s, c, inputs)
    case None =>
      if DrawRaises(s, c, inputs) then a
      else
        a.(draws := a.draws + 1, textured := a.textured + (if StageActive(s, 0) then 1 else 0),
           triangles := a.triangles + |Triangles(c)|)
    case Some(r) => a.(unsupported := Noted(a.unsupported, r))
  }

  ghost function Cleared(a: Account, s: State, flags: Word, inputs: Inputs): Account {
    if ClearRect(s) == None || ClearRaises(s, flags, inputs.depthSize) then a else a.(clears := a.clears + 1)
  }

  /** The counters after one more action, which finds these inputs. */
  ghost function Counted(a: Account, action: Action, inputs: Inputs): Account {
    match action
    case Draw(s, c, _) => Drawn(a, s, c, inputs)
    case ClearSurface(s, _, flags) => Cleared(a, s, flags, inputs)
    case PresentSurface(_, _) => a.(presents := a.presents + 1)
    case Unsupported(kind) => a.(unsupported := Noted(a.unsupported, BatchReason(kind)))
    case _ => a
  }

  const NO_ACCOUNT := Account(0, 0, 0, 0, 0, map[])

  /** The counters after everything in the log was asked; `inputs` says what a draw or clear finds,
      given all that was asked up to it. */
  ghost function Accounts(inputs: seq<Action> -> Inputs, log: seq<Action>): Account {
    if log == [] then NO_ACCOUNT
    else Counted(Accounts(inputs, log[..|log| - 1]), log[|log| - 1], inputs(log))
  }

  /** The action raises. */
  ghost predicate Raises(action: Action, inputs: Inputs) {
    match action
    case Draw(s, c, _) => DrawRaises(s, c, inputs)
    case ClearSurface(s, _, flags) => ClearRaises(s, flags, inputs.depthSize)
    case _ => false
  }

  /** The last action of the log raises. */
  ghost predicate EndsRaising(inputs: seq<Action> -> Inputs, log: seq<Action>) {
    log != [] && Raises(log[|log| - 1], inputs(log))
  }

  /** No action of the log raises. */
  ghost predicate Clean(inputs: seq<Action> -> Inputs, log: seq<Action>) {
    forall n :: 0 <= n <= |log| ==> !EndsRaising(inputs, log[..n])
  }

  lemma CleanNext(inputs: seq<Action> -> Inputs, log: seq<Action>, a: Action)
    ensures EndsRaising(inputs, log + [a]) <==> Raises(a, inputs(log + [a]))
    ensures Clean(inputs, log + [a]) <==> Clean(inputs, log) && !Raises(a, inputs(log + [a]))
  {
    hide Raises;
    forall n | 0 <= n <= |log| ensures (log + [a])[..n] == log[..n] {
    }
    assert (log + [a])[..|log| + 1] == log + [a];
    assert Clean(inputs, log + [a]) ==> forall n :: 0 <= n <= |log| ==> !EndsRaising(inputs, (log + [a])[..n]);
  }

  /** A replay of `asked` that did `history`: everything, when nothing raises, and otherwise
      everything up to the first action that raises, that one included. */
  ghost predicate Ran(inputs: seq<Action> -> Inputs, asked: seq<Action>, history: seq<Action>, ok: bool) {
    && history <= asked
    && if ok then history == asked && Clean(inputs, asked)
       else history != [] && Clean(inputs, history[..|history| - 1]) && EndsRaising(inputs, history)
  }

  lemma RanExactly(inputs: seq<Action> -> Inputs, asked: seq<Action>, history: seq<Action>, ok: bool)
    requires Ran(inputs, asked, history, ok)
    ensures ok <==> Clean(inputs, asked)
  {
    hide EndsRaising;
    if !ok {
      assert asked[..|history|] == history;
    }
  }

  /** Rows fit the depth pitch at every draw and clear of the log. */
  predicate AllWide(log: seq<Action>) {
    forall n :: 0 <= n < |log| && (log[n].Draw? || log[n].ClearSurface?) ==> DepthRowFits(log[n].state)
  }

  /** With rows that fit the depth pitch, nothing raises. */
  lemma WideClean(inputs: seq<Action> -> Inputs, log: seq<Action>)
    requires AllWide(log)
    ensures Clean(inputs, log)
  {
    hide DepthRowFits, DrawRaises, ClearRaises;
    forall n | 0 <= n <= |log| ensures !EndsRaising(inputs, log[..n]) {
      if n > 0 {
        assert log[..n][n - 1] == log[n - 1];
        match log[n - 1]
        case Draw(s, c, _) => WideDraws(s, c, inputs(log[..n]));
        case ClearSurface(s, _, flags) => WideClears(s, flags, inputs(log[..n]).depthSize);
        case _ =>
      }
    }
  }

  lemma AccountsNext(inputs: seq<Action> -> Inputs, log: seq<Action>, a: Action)
    ensures Accounts(inputs, log + [a]) == Counted(Accounts(inputs, log), a, inputs(log + [a]))
  {
    hide Counted;
    assert (log + [a])[..|log + [a]| - 1] == log;
  }

  ghost function Total(m: map<Reason, nat>): nat
    decreases |m|
  {
    if m == map[] then 0
    else
      var r :| r in m;
      assert |m - {r}| < |m| by { Smaller(m, r); }
      m[r] + Total(m - {r})
  }

  lemma Smaller(m: map<Reason, nat>, r: Reason)
    requires r in m
    ensures |m - {r}| == |m| - 1
  {
    assert (m - {r}).Keys == m.Keys - {r};
    assert |m.Keys| == |m| && |(m - {r}).Keys| == |m - {r}|;
  }

  /** Any reason may be taken first. */
  lemma {:induction false} TotalWithout(m: map<Reason, nat>, r: Reason)
    requires r in m
    ensures Total(m) == m[r] + Total(m - {r})
    decreases |m|
  {
    var first :| first in m && Total(m) == m[first] + Total(m - {first});
    Smaller(m, first);
    Smaller(m, r);
    if first != r {
      TotalWithout(m - {first}, r);
      TotalWithout(m - {r}, first);
      assert m - {first} - {r} == m - {r} - {first};
    }
  }

  lemma TotalCounts(m: map<Reason, nat>, r: Reason)
    ensures Total(Noted(m, r)) == Total(m) + 1
  {
    var more := Noted(m, r);
    TotalWithout(more, r);
    if r in m {
      TotalWithout(m, r);
      assert more - {r} == m - {r};
    } else {
      assert more - {r} == m;
    }
  }

  /** The reason an action is counted under, if any. */
  function ReasonOf(action: Action, inputs: Inputs): Option<Reason> {
    match action
    case Draw(s, c, _) => DrawFault(s, c, inputs)
    case Unsupported(kind) => Some(BatchReason(kind))
    case _ => None
  }

  /** The reasons against draws and batches of a log, in order. */
  function Reasons(inputs: seq<Action> -> Inputs, log: seq<Action>): seq<Reason> {
    if log == [] then []
    else
      Reasons(inputs, log[..|log| - 1]) +
      match ReasonOf(log[|log| - 1], inputs(log))
      case Some(r) => [r]
      case None => []
  }

  lemma ReasonCounted(a: Account, action: Action, inputs: Inputs)
    ensures Counted(a, action, inputs).unsupported ==
      match ReasonOf(action, inputs)
      case Some(r) => Noted(a.unsupported, r)
      case None => a.unsupported
  {
    hide DrawFault, StageActive, Triangles, DrawRaises, ClearRaises, ClearRect, Noted;
  }

  /** Every reason is counted as often as it arose, and no other is listed. */
  lemma {:induction false} ReasonsCounted(inputs: seq<Action> -> Inputs, log: seq<Action>, r: Reason)
    ensures var m := Accounts(inputs, log).unsupported;
      multiset(Reasons(inputs, log))[r] == if r in m then m[r] else 0
  {
    hide Counted, ReasonOf;
    if log != [] {
      ReasonCounted(Accounts(inputs, log[..|log| - 1]), log[|log| - 1], inputs(log));
      ReasonsCounted(inputs, log[..|log| - 1], r);
    }
  }

  /** The draws and batches of a log. */
  function HandledIn(log: seq<Action>): nat {
    if log == [] then 0
    else HandledIn(log[..|log| - 1]) + if log[|log| - 1].Draw? || log[|log| - 1].Unsupported? then 1 else 0
  }

  /** The draws of a log that raise. */
  ghost function RaisedIn(inputs: seq<Action> -> Inputs, log: seq<Action>): nat {
    if log == [] then 0
    else
      RaisedIn(inputs, log[..|log| - 1])
      + if log[|log| - 1].Draw? && Raises(log[|log| - 1], inputs(log)) then 1 else 0
  }

  lemma CountedOnce(a: Account, action: Action, inputs: Inputs)
    ensures var b := Counted(a, action, inputs);
      b.draws + Total(b.unsupported) == a.draws + Total(a.unsupported)
        + if action.Unsupported? || (action.Draw? && !Raises(action, inputs)) then 1 else 0
  {
    hide DrawFault, StageActive, Triangles, Total, Noted, ClearRect, ClearRaises, AllFit, AllRead;
    match action
    case Draw(s, c, _) =>
      match DrawFault(s, c, inputs) {
        case Some(r) => TotalCounts(a.unsupported, r);
        case None =>
      }
    case Unsupported(kind) => TotalCounts(a.unsupported, BatchReason(kind));
    case _ =>
  }

  /** Every draw and batch that does not raise is counted exactly once, as executed or under one
      reason. */
  lemma {:induction false} AccountsAddUp(inputs: seq<Action> -> Inputs, log: seq<Action>)
    ensures var a := Accounts(inputs, log);
      a.draws + Total(a.unsupported) + RaisedIn(inputs, log) == HandledIn(log)
  {
    hide Total, Counted, Raises;
    if log == [] {
      NothingCounted();
    } else {
      var init, last := log[..|log| - 1], log[|log| - 1];
      AccountsAddUp(inputs, init);
      CountedOnce(Accounts(inputs, init), last, inputs(log));
      UnsupportedStays(last, inputs(log));
    }
  }

  lemma UnsupportedStays(action: Action, inputs: Inputs)
    ensures action.Unsupported? ==> !Raises(action, inputs)
  {
  }

  lemma NothingCounted()
    ensures Total(map[]) == 0
  {
  }

  lemma {:induction false} CleanRaisesNone(inputs: seq<Action> -> Inputs, log: seq<Action>)
    requires Clean(inputs, log)
    ensures RaisedIn(inputs, log) == 0
  {
    hide Raises;
    if log != [] {
      var init, last := log[..|log| - 1], log[|log| - 1];
      assert log == init + [last];
      CleanNext(inputs, init, last);
      CleanRaisesNone(inputs, init);
    }
  }

  // ---- The backend ----

  /** The pixel backend as far as the record loop drives it; what a draw finds besides the state
      is up to `inputs`, which may look at everything asked so far. */
  class OfflinePixelReplay {
    const inputs: seq<Action> -> Inputs
    var objects: Objects
    var drawsExecuted: nat
    var texturedDrawsExecuted: nat
    var trianglesExecuted: nat
    var clearsExecuted: nat
    var presentsExecuted: nat
    var unsupported: map<Reason, nat>
    var history: seq<Action>

    ghost function Counters(): Account
      reads this
    {
      Account(drawsExecuted, texturedDrawsExecuted, trianglesExecuted, clearsExecuted, presentsExecuted, unsupported)
    }

    /** The counters are those of what has been asked. */
    ghost predicate Tallied()
      reads this
    {
      Counters() == Accounts(inputs, history)
    }

    constructor (inputs: seq<Action> -> Inputs)
      ensures this.inputs == inputs && objects == map[] && history == [] && Tallied()
    {
      this.inputs := inputs;
      drawsExecuted, texturedDrawsExecuted, trianglesExecuted, clearsExecuted, presentsExecuted := 0, 0, 0, 0, 0;
      objects, unsupported, history := map[], map[], [];
    }

    method NoteUnsupported(r: Reason)
      modifies this`unsupported
      ensures unsupported == Noted(old(unsupported), r)
      ensures Total(unsupported) == Total(old(unsupported)) + 1
    {
      TotalCounts(unsupported, r);
      unsupported := unsupported[r := (if r in unsupported then unsupported[r] else 0) + 1];
    }

    /** Ask for something that cannot raise and counts nothing. */
    method Ask(a: Action)
      modifies this`history
      ensures history == old(history) + [a]
      ensures a.SetRamin? || a.Observe? || a.ValidateScanout? ==>
        (old(Tallied()) ==> Tallied()) && (Clean(inputs, old(history)) ==> Clean(inputs, history))
    {
      AccountsNext(inputs, history, a);
      CleanNext(inputs, history, a);
      history := history + [a];
    }

    method SetObjects(objects: Objects)
      requires Tallied() && Clean(inputs, history)
      modifies this`objects, this`history
      ensures this.objects == objects && history == old(history) + [SetRamin(objects)]
      ensures Tallied() && Clean(inputs, history)
    {
      hide Clean, Accounts;
      Ask(SetRamin(objects));
      this.objects := objects;
    }

    /** A fault is counted; a draw without one is counted as executed unless a triangle raises. */
    method ExecuteDraw(state: State, checkpoint: Checkpoint) returns (ok: bool)
      modifies this
      ensures history == old(history) + [Draw(state, checkpoint, objects)] && objects == old(objects)
      ensures ok <==> !DrawRaises(state, checkpoint, inputs(history))
      ensures Counters() == Drawn(old(Counters()), state, checkpoint, inputs(history))
      ensures drawsExecuted + Total(unsupported) == old(drawsExecuted + Total(unsupported)) + if ok then 1 else 0
      ensures old(Tallied()) ==> Tallied()
    {
      CountedOnce(Counters(), Draw(state, checkpoint, objects), inputs(history + [Draw(state, checkpoint, objects)]));
      AccountsNext(inputs, history, Draw(state, checkpoint, objects));
      hide Total, StageActive, TriangleIndices, Noted, Accounts, DrawFault, Clean, Register, AllFit, AllRead,
           SourceIndices;
      Ask(Draw(state, checkpoint, objects));
      var found := inputs(history);
      var fault, vertices := FindDrawFault(state, checkpoint, found);
      if fault != None {
        NoteUnsupported(fault.value);
        return true;
      }
      var triangles := TriangleIndices(checkpoint.primitive, |vertices|);
      FaultlessTriangles(state, checkpoint, found, |vertices|);
      assert triangles != None;
      TrianglesNameVertices(checkpoint);
      ok := DrawTriangles(vertices, triangles.value, state, found);
      if !ok {
        return;
      }
      drawsExecuted := drawsExecuted + 1;
      texturedDrawsExecuted := texturedDrawsExecuted + if StageActive(state, 0) then 1 else 0;
      trianglesExecuted := trianglesExecuted + |triangles.value|;
    }

    method Clear(state: State, frame: nat, flags: Word) returns (ok: bool)
      modifies this
      ensures history == old(history) + [ClearSurface(state, frame, flags)] && objects == old(objects)
      ensures ok <==> !ClearRaises(state, flags, inputs(history).depthSize)
      ensures Counters() == Cleared(old(Counters()), state, flags, inputs(history))
    {
      hide ClearRaises, ClearRect, Clean, Accounts;
      Ask(ClearSurface(state, frame, flags));
      var counted;
      ok, counted := ExecuteClear(state, flags, inputs(history).colorSize, inputs(history).depthSize);
      if counted {
        clearsExecuted := clearsExecuted + 1;
      }
    }

    method Present(state: State, frame: nat)
      modifies this
      ensures history == old(history) + [PresentSurface(state, frame)] && objects == old(objects)
      ensures Counters() == old(Counters()).(presents := old(Counters()).presents + 1)
    {
      hide Clean, Accounts;
      Ask(PresentSurface(state, frame));
      presentsExecuted := presentsExecuted + 1;
    }

    /** A checkpoint is acted on at once unless it is a draw, which has to wait. */
    method Dispatch(c: Checkpoint, state: State, frame: nat) returns (pending: Option<Checkpoint>, ok: bool)
      requires Tallied() && Clean(inputs, history)
      modifies this
      ensures objects == old(objects) && Tallied()
      ensures Survived(inputs, old(history), history, ok)
      ensures pending == if IsDraw(Some(c)) then Some(c) else None
      ensures forall f: Front :: f.state == state ==> history == old(history) + AtCheckpoint(c, f, frame)
    {
      hide Accounts, Clean, Cleared, ClearRaises, Noted;
      pending, ok := None, true;
      if c.kind == Kind.Clear {
        AccountsNext(inputs, history, ClearSurface(state, frame, c.data));
        CleanNext(inputs, history, ClearSurface(state, frame, c.data));
        ok := this.Clear(state, frame, c.data);
        assert history[..|history| - 1] == old(history);
      } else if c.kind == Kind.Present {
        AccountsNext(inputs, history, PresentSurface(state, frame));
        CleanNext(inputs, history, PresentSurface(state, frame));
        this.Present(state, frame);
      } else if c.kind == DrawArrays || c.kind == IndexedBatch {
        pending := Some(c);
      } else {
        AccountsNext(inputs, history, Unsupported(c.kind));
        CleanNext(inputs, history, Unsupported(c.kind));
        Ask(Unsupported(c.kind));
        NoteUnsupported(BatchReason(c.kind));
      }
    }
  }

  /** From `before` on, nothing raised, or the last action did. */
  ghost predicate Survived(inputs: seq<Action> -> Inputs, before: seq<Action>, history: seq<Action>, ok: bool) {
    && before <= history
    && if ok then Clean(inputs, history)
       else history != [] && Clean(inputs, history[..|history| - 1]) && EndsRaising(inputs, history)
  }

  // ---- The record loop ----

  /** What is still to be asked before record `n`, with the draw of record `pending` waiting. */
  ghost function Rest(records: seq<Record>, n: nat, pending: Option<nat>): seq<Action>
    requires n <= |records|
    requires pending.Some? ==> pending.value < n && IsDraw(CheckpointAt(records, pending.value))
  {
    match pending
    case None => Asked(records, n)
    case Some(p) =>
      var m := BehindMemory(records, n);
      Observations(records, n, m) + [DrawOf(records, p)] + Asked(records, m)
  }

  lemma {:induction false} ObservationsFirst(records: seq<Record>, n: nat, m: nat)
    requires n < m <= |records| && records[n].Memory?
    ensures Observations(records, n, m) == AtOnce(records, n) + Observations(records, n + 1, m)
  {
    hide CheckpointAt, FrontAt, IsScanoutRead;
    if n + 1 < m {
      ObservationsFirst(records, n, m - 1);
    }
  }

  lemma FlushNow(records: seq<Record>, n: nat, p: nat)
    requires p < n <= |records| && IsDraw(CheckpointAt(records, p)) && (n == |records| || !records[n].Memory?)
    ensures Rest(records, n, Some(p)) == [DrawOf(records, p)] + Rest(records, n, None)
  {
    hide CheckpointAt, FrontAt, Asked;
  }

  lemma WaitOn(records: seq<Record>, n: nat, p: nat)
    requires p < n < |records| && IsDraw(CheckpointAt(records, p)) && records[n].Memory?
    ensures Rest(records, n, Some(p)) == AtOnce(records, n) + Rest(records, n + 1, Some(p))
  {
    hide CheckpointAt, FrontAt, Asked, AtOnce;
    ObservationsFirst(records, n, BehindMemory(records, n));
  }

  lemma Proceed(records: seq<Record>, n: nat)
    requires n < |records|
    ensures Rest(records, n, None) == AtOnce(records, n) +
      Rest(records, n + 1, if IsDraw(CheckpointAt(records, n)) then Some(n) else None)
  {
    hide FrontAt, BehindMemory;
    if IsDraw(CheckpointAt(records, n)) {
      assert AtOnce(records, n) == [];
    }
  }

  lemma FrontNext(records: seq<Record>, n: nat)
    requires n < |records|
    ensures FrontAt(records, n + 1) == Advance(FrontAt(records, n), records[n], n)
  {
    hide Advance;
  }

  /** Memory records do not change what a waiting draw will see. */
  lemma {:induction false} FrontWaits(records: seq<Record>, p: nat, n: nat)
    requires p < n <= |records| && forall k :: p < k < n ==> records[k].Memory?
    ensures FrontAt(records, n) == FrontAt(records, p + 1)
  {
    if p + 1 < n {
      FrontWaits(records, p, n - 1);
    }
  }

  /** The draw waiting before record `n` is that of record `p`, with only memory records since. */
  ghost predicate Waiting(records: seq<Record>, n: nat, pending: Option<Checkpoint>, p: Option<nat>)
    requires n <= |records|
  {
    match p
    case None => pending == None
    case Some(p) =>
      && p < n && IsDraw(CheckpointAt(records, p)) && pending == CheckpointAt(records, p)
      && forall k :: p < k < n ==> records[k].Memory?
  }

  /** Execute the waiting draw before a record that is not a memory record, or at the end. */
  method Flush(records: seq<Record>, n: nat, state: PgraphReplayState, backend: OfflinePixelReplay,
               pending: Option<Checkpoint>, ghost p: Option<nat>)
    returns (ok: bool)
    requires n <= |records| && Waiting(records, n, pending, p) && (n == |records| || !records[n].Memory?)
    requires state.View() == FrontAt(records, n).state && backend.objects == FrontAt(records, n).objects
    requires backend.Tallied() && Clean(backend.inputs, backend.history)
    modifies backend
    ensures backend.objects == old(backend.objects) && backend.Tallied()
    ensures Survived(backend.inputs, old(backend.history), backend.history, ok)
    ensures backend.history + Rest(records, n, None) == old(backend.history) + Rest(records, n, p)
  {
    hide FrontAt, CheckpointAt, Rest, Accounts, Drawn, Clean, DrawRaises;
    ok := true;
    if pending != None {
      FrontWaits(records, p.value, n);
      FlushNow(records, n, p.value);
      CleanNext(backend.inputs, backend.history, Draw(state.View(), pending.value, backend.objects));
      ok := backend.ExecuteDraw(state.View(), pending.value);
      assert backend.history[..|backend.history| - 1] == old(backend.history);
    }
  }

  /** A record that is not a memory record, with no draw waiting. */
  method Process(records: seq<Record>, n: nat, state: PgraphReplayState, backend: OfflinePixelReplay, methodIndex: nat)
    returns (pending: Option<Checkpoint>, ok: bool)
    requires n < |records| && !records[n].Memory?
    requires Front(state.View(), backend.objects, methodIndex) == FrontAt(records, n)
    requires records[n].ConstantRecord? ==> |state.transformConstants| == CONSTANT_WORDS
    requires backend.Tallied() && Clean(backend.inputs, backend.history)
    modifies state, backend
    ensures backend.Tallied() && Survived(backend.inputs, old(backend.history), backend.history, ok)
    ensures var f := FrontAt(records, n + 1); state.View() == f.state && backend.objects == f.objects
    ensures pending == if IsDraw(CheckpointAt(records, n)) then CheckpointAt(records, n) else None
    ensures backend.history == old(backend.history) + AtOnce(records, n)
  {
    hide FrontAt, Apply, Start, SetConstant, Accounts, PgraphReplayState.View, Clean;
    FrontNext(records, n);
    pending, ok := None, true;
    match records[n] {
      case Ramin(objects) => backend.SetObjects(objects);
      case MethodRecord(frame, _, _, _) =>
        var c := state.ApplyMethod(CallOf(records[n], n, methodIndex), backend.objects);
        if c != None {
          pending, ok := backend.Dispatch(c.value, state.View(), frame);
        }
      case ConstantRecord(index, words) => state.SetTransformConstant(index, words);
      case Scanout(frame, size) => backend.Ask(ValidateScanout(frame, size));
      case OtherRecord =>
    }
  }

  lemma {:induction false} ConstantsFit(records: seq<Record>, n: nat)
    requires n <= |records|
    ensures |FrontAt(records, n).state.program.constants| == CONSTANT_WORDS
  {
    hide Apply;
    if n > 0 {
      ConstantsFit(records, n - 1);
      var f, r := FrontAt(records, n - 1), records[n - 1];
      if r.MethodRecord? {
        ApplyKeepsConstants(f.state, CallOf(r, n - 1, f.methods), f.objects);
      }
    }
  }

  lemma ApplyKeepsConstants(s: State, c: Call, objects: Objects)
    ensures |Apply(s, c, objects).0.program.constants| == |s.program.constants|
  {
    hide StoreBatch, StoreAttributes, StoreFixed, Put, Report;
  }

  lemma MemoryStep(records: seq<Record>, n: nat)
    requires n < |records| && records[n].Memory?
    ensures FrontAt(records, n + 1) == FrontAt(records, n) && CheckpointAt(records, n) == None
    ensures var r := records[n];
      AtOnce(records, n) == if IsScanoutRead(records, n) then [] else [Observe(r.address, r.data)]
  {
    hide FrontAt;
    FrontNext(records, n);
  }

  lemma RestNext(records: seq<Record>, n: nat, p: Option<nat>)
    requires n < |records| && (p.Some? ==> p.value < n && IsDraw(CheckpointAt(records, p.value)))
    requires p.Some? ==> records[n].Memory?
    ensures records[n].Memory? ==> CheckpointAt(records, n) == None
    ensures var q := if p.Some? then p else if IsDraw(CheckpointAt(records, n)) then Some(n) else None;
      Rest(records, n, p) == AtOnce(records, n) + Rest(records, n + 1, q)
  {
    hide FrontAt, Rest, AtOnce;
    if p.Some? {
      WaitOn(records, n, p.value);
    } else {
      Proceed(records, n);
    }
  }

  lemma RestOfNothing(records: seq<Record>)
    ensures Rest(records, |records|, None) == []
  {
  }

  /** A record that is not a memory record: the waiting draw goes first. */
  method Turn(records: seq<Record>, n: nat, state: PgraphReplayState, backend: OfflinePixelReplay,
              waiting: Option<Checkpoint>, ghost p: Option<nat>, methodIndex: nat)
    returns (pending: Option<Checkpoint>, methodIndex': nat, ok: bool)
    requires n < |records| && Waiting(records, n, waiting, p) && !records[n].Memory?
    requires Front(state.View(), backend.objects, methodIndex) == FrontAt(records, n)
    requires backend.Tallied() && Clean(backend.inputs, backend.history)
    modifies state, backend
    ensures backend.Tallied() && Survived(backend.inputs, old(backend.history), backend.history, ok)
    ensures ok ==> Front(state.View(), backend.objects, methodIndex') == FrontAt(records, n + 1)
    ensures ok ==> pending == if IsDraw(CheckpointAt(records, n)) then CheckpointAt(records, n) else None
    ensures var q := if IsDraw(CheckpointAt(records, n)) then Some(n) else None;
      if ok then backend.history + Rest(records, n + 1, q) == old(backend.history) + Rest(records, n, p)
      else backend.history <= old(backend.history) + Rest(records, n, p)
  {
    hide FrontAt, CheckpointAt, Rest, AtOnce, Accounts, PgraphReplayState.View, IsDraw, Clean, EndsRaising;
    RestNext(records, n, None);
    FrontNext(records, n);
    methodIndex' := if records[n].MethodRecord? then methodIndex + 1 else methodIndex;
    ok := Flush(records, n, state, backend, waiting, p);
    if !ok {
      pending := None;
      return;
    }
    ConstantsFit(records, n);
    ConstantsOf(state);
    pending, ok := Process(records, n, state, backend, methodIndex);
  }

  method ReplayPixels(records: seq<Record>, inputs: seq<Action> -> Inputs)
    returns (backend: OfflinePixelReplay, ok: bool)
    ensures backend.inputs == inputs && Ran(inputs, Asked(records, 0), backend.history, ok)
    ensures ok <==> Clean(inputs, Asked(records, 0))
    ensures backend.Counters() == Accounts(inputs, backend.history)
  {
    hide FrontAt, CheckpointAt, Rest, AtOnce, Asked, Accounts, PgraphReplayState.View, IsScanoutRead, Clean;
    hide EndsRaising;
    var excluded := ScanoutMemoryRecords(records);
    var state := new PgraphReplayState();
    backend := new OfflinePixelReplay(inputs);
    var methodIndex := 0;
    var pending: Option<Checkpoint> := None;
    ghost var p: Option<nat> := None;
    StartOfRun(records);
    NothingRaises(inputs);
    for i := 0 to |records|
      invariant fresh(state) && fresh(backend) && backend.inputs == inputs && backend.Tallied()
      invariant Clean(inputs, backend.history)
      invariant Front(state.View(), backend.objects, methodIndex) == FrontAt(records, i)
      invariant Waiting(records, i, pending, p)
      invariant backend.history + Rest(records, i, p) == Asked(records, 0)
    {
      if records[i].Memory? {
        RestNext(records, i, p);
        MemoryStep(records, i);
        if i !in excluded {
          backend.Ask(Observe(records[i].address, records[i].data));
        }
      } else {
        pending, methodIndex, ok := Turn(records, i, state, backend, pending, p, methodIndex);
        if !ok {
          RanExactly(inputs, Asked(records, 0), backend.history, ok);
          return;
        }
        p := if IsDraw(CheckpointAt(records, i)) then Some(i) else None;
      }
    }
    ok := Flush(records, |records|, state, backend, pending, p);
    RestOfNothing(records);
    assert backend.history + [] == backend.history;
    RanExactly(inputs, Asked(records, 0), backend.history, ok);
  }

  lemma NothingRaises(inputs: seq<Action> -> Inputs)
    ensures Clean(inputs, [])
  {
  }

  lemma ConstantsOf(state: PgraphReplayState)
    ensures state.View().program.constants == state.transformConstants
  {
  }

  lemma StartOfRun(records: seq<Record>)
    ensures FrontAt(records, 0) == Front(Start(), map[], 0)
    ensures Rest(records, 0, None) == Asked(records, 0)
  {
  }

  // ---- What each draw sees ----

  function ObservesIn(log: seq<Action>): seq<Action> {
    if log == [] then []
    else
      var last := log[|log| - 1];
      ObservesIn(log[..|log| - 1]) + if last.Observe? then [last] else []
  }

  /** The draws of a log in order, each with the observations made before it. */
  function DrawsSee(log: seq<Action>): seq<(Action, seq<Action>)> {
    if log == [] then []
    else
      var init, last := log[..|log| - 1], log[|log| - 1];
      DrawsSee(init) + if last.Draw? then [(last, ObservesIn(init))] else []
  }

  /** From record `n` on: every draw checkpoint once and in order, with its own state and objects
      and every memory record before the first other record behind it. */
  function ExpectedDraws(records: seq<Record>, n: nat): seq<(Action, seq<Action>)>
    requires n <= |records|
    decreases |records| - n
  {
    if n == |records| then []
    else
      (if IsDraw(CheckpointAt(records, n)) then
         [(DrawOf(records, n), Observations(records, 0, BehindMemory(records, n + 1)))]
       else [])
      + ExpectedDraws(records, n + 1)
  }

  lemma AskOne(log: seq<Action>, a: Action)
    ensures ObservesIn(log + [a]) == ObservesIn(log) + if a.Observe? then [a] else []
    ensures DrawsSee(log + [a]) == DrawsSee(log) + if a.Draw? then [(a, ObservesIn(log))] else []
  {
    assert (log + [a])[..|log + [a]| - 1] == log;
  }

  lemma {:induction false} AskObservations(log: seq<Action>, records: seq<Record>, n: nat, m: nat)
    requires n <= m <= |records|
    ensures ObservesIn(log + Observations(records, n, m)) == ObservesIn(log) + Observations(records, n, m)
    ensures DrawsSee(log + Observations(records, n, m)) == DrawsSee(log)
    decreases m - n
  {
    hide IsScanoutRead, ObservesIn, DrawsSee;
    var observed := Observations(records, n, m);
    if n == m {
      assert log + observed == log;
    } else {
      AskObservations(log, records, n, m - 1);
      var init := Observations(records, n, m - 1);
      var r := records[m - 1];
      if r.Memory? && !IsScanoutRead(records, m - 1) {
        AskOne(log + init, Observe(r.address, r.data));
        assert log + observed == log + init + [Observe(r.address, r.data)];
      } else {
        assert observed == init;
      }
    }
  }

  lemma {:induction false} ObservationsSplit(records: seq<Record>, n: nat, m: nat)
    requires n <= m <= |records|
    ensures Observations(records, 0, m) == Observations(records, 0, n) + Observations(records, n, m)
    decreases m - n
  {
    hide IsScanoutRead;
    if n < m {
      ObservationsSplit(records, n, m - 1);
    }
  }

  lemma {:induction false} NoDrawInMemory(records: seq<Record>, n: nat, m: nat)
    requires n <= m <= |records| && forall k :: n <= k < m ==> records[k].Memory?
    ensures ExpectedDraws(records, n) == ExpectedDraws(records, m)
    decreases m - n
  {
    if n < m {
      NoDrawInMemory(records, n + 1, m);
    }
  }

  /** What is asked at once is no draw, and observes what the record holds. */
  lemma AtOnceObserves(records: seq<Record>, n: nat)
    requires n < |records|
    ensures var asked := AtOnce(records, n);
      |asked| <= 1 && (asked != [] ==> !asked[0].Draw?)
      && Observations(records, n, n + 1) == if asked != [] && asked[0].Observe? then asked else []
  {
    hide FrontAt, CheckpointAt, IsScanoutRead;
    assert Observations(records, n, n) == [];
  }

  lemma AskAtOnce(log: seq<Action>, records: seq<Record>, n: nat)
    requires n < |records| && ObservesIn(log) == Observations(records, 0, n)
    ensures ObservesIn(log + AtOnce(records, n)) == Observations(records, 0, n + 1)
    ensures DrawsSee(log + AtOnce(records, n)) == DrawsSee(log)
  {
    hide AtOnce, ObservesIn, DrawsSee, Observations;
    AtOnceObserves(records, n);
    ObservationsSplit(records, n, n + 1);
    var asked := AtOnce(records, n);
    if asked == [] {
      assert log + asked == log;
    } else {
      assert asked == [asked[0]];
      AskOne(log, asked[0]);
    }
  }

  /** A draw with the memory records before it. */
  lemma AskDraw(log: seq<Action>, records: seq<Record>, n: nat, m: nat)
    requires n < m <= |records| && IsDraw(CheckpointAt(records, n)) && ObservesIn(log) == Observations(records, 0, n)
    ensures var log' := log + Observations(records, n + 1, m) + [DrawOf(records, n)];
      && ObservesIn(log') == Observations(records, 0, m)
      && DrawsSee(log') == DrawsSee(log) + [(DrawOf(records, n), Observations(records, 0, m))]
  {
    hide CheckpointAt, FrontAt, ObservesIn, DrawsSee, Observations, IsDraw;
    AskObservations(log, records, n + 1, m);
    DrawObservesNothing(records, n);
    ObservationsSplit(records, n, n + 1);
    ObservationsSplit(records, n + 1, m);
    assert Observations(records, 0, n + 1) == Observations(records, 0, n);
    assert ObservesIn(log + Observations(records, n + 1, m)) == Observations(records, 0, m);
    AskOne(log + Observations(records, n + 1, m), DrawOf(records, n));
  }

  lemma AskedNext(records: seq<Record>, n: nat)
    requires n < |records|
    ensures var m := BehindMemory(records, n + 1);
      Asked(records, n) ==
        if IsDraw(CheckpointAt(records, n)) then
          Observations(records, n + 1, m) + [DrawOf(records, n)] + Asked(records, m)
        else AtOnce(records, n) + Asked(records, n + 1)
    ensures var m := BehindMemory(records, n + 1);
      ExpectedDraws(records, n) ==
        if IsDraw(CheckpointAt(records, n)) then
          [(DrawOf(records, n), Observations(records, 0, m))] + ExpectedDraws(records, m)
        else ExpectedDraws(records, n + 1)
  {
    hide CheckpointAt, FrontAt, AtOnce, Observations, IsDraw;
    NoDrawInMemory(records, n + 1, BehindMemory(records, n + 1));
  }

  lemma {:induction false} AskedDraws(log: seq<Action>, records: seq<Record>, n: nat)
    requires n <= |records| && ObservesIn(log) == Observations(records, 0, n)
    ensures DrawsSee(log + Asked(records, n)) == DrawsSee(log) + ExpectedDraws(records, n)
    decreases |records| - n
  {
    hide CheckpointAt, FrontAt, AtOnce, ObservesIn, DrawsSee, Observations, IsDraw, BehindMemory, Asked, ExpectedDraws;
    if n == |records| {
      NothingLeft(records);
      assert log + Asked(records, n) == log;
    } else {
      AskedNext(records, n);
      if IsDraw(CheckpointAt(records, n)) {
        var m := BehindMemory(records, n + 1);
        var log' := log + Observations(records, n + 1, m) + [DrawOf(records, n)];
        AskDraw(log, records, n, m);
        AskedDraws(log', records, m);
        assert log + Asked(records, n) == log' + Asked(records, m);
      } else {
        AskAtOnce(log, records, n);
        AskedDraws(log + AtOnce(records, n), records, n + 1);
        assert log + Asked(records, n) == log + AtOnce(records, n) + Asked(records, n + 1);
      }
    }
  }

  lemma NothingLeft(records: seq<Record>)
    ensures Asked(records, |records|) == [] && ExpectedDraws(records, |records|) == []
  {
  }

  lemma DrawObservesNothing(records: seq<Record>, n: nat)
    requires n < |records| && IsDraw(CheckpointAt(records, n))
    ensures Observations(records, n, n + 1) == []
  {
    hide FrontAt;
    assert Observations(records, n, n) == [];
  }

  /** The record loop executes every draw checkpoint exactly once and in order, on the state and
      objects of its checkpoint, after exactly the memory records up to the first other record
      behind it. */
  lemma DrawsSeeTheirInputs(records: seq<Record>)
    ensures DrawsSee(Asked(records, 0)) == ExpectedDraws(records, 0)
  {
    hide Asked, ExpectedDraws;
    assert ObservesIn([]) == [] && DrawsSee([]) == [] && Observations(records, 0, 0) == [];
    AskedDraws([], records, 0);
    assert [] + Asked(records, 0) == Asked(records, 0);
    assert [] + ExpectedDraws(records, 0) == ExpectedDraws(records, 0);
  }

  // ---- Every draw is accounted for ----

  /** The draw and batch checkpoints before record `n`. */
  function ToHandle(records: seq<Record>, n: nat): nat
    requires n <= |records|
  {
    if n == 0 then 0
    else
      var c := CheckpointAt(records, n - 1);
      ToHandle(records, n - 1) + if IsDraw(c) || IsOtherBatch(c) then 1 else 0
  }

  lemma {:induction false} HandledSplit(a: seq<Action>, b: seq<Action>)
    ensures HandledIn(a + b) == HandledIn(a) + HandledIn(b)
  {
    if b == [] {
      assert a + b == a;
    } else {
      HandledSplit(a, b[..|b| - 1]);
      assert (a + b)[..|a + b| - 1] == a + b[..|b| - 1];
    }
  }

  lemma {:induction false} ObservationsHandleNothing(records: seq<Record>, n: nat, m: nat)
    requires n <= m <= |records|
    ensures HandledIn(Observations(records, n, m)) == 0
    decreases m - n
  {
    hide IsScanoutRead, HandledIn;
    NothingHandled();
    if n < m {
      ObservationsHandleNothing(records, n, m - 1);
      var init, r := Observations(records, n, m - 1), records[m - 1];
      if r.Memory? && !IsScanoutRead(records, m - 1) {
        HandledOne(Observe(r.address, r.data));
        HandledSplit(init, [Observe(r.address, r.data)]);
      } else {
        assert Observations(records, n, m) == init;
      }
    }
  }

  lemma NothingHandled()
    ensures HandledIn([]) == 0
  {
  }

  lemma HandledOne(a: Action)
    ensures HandledIn([a]) == if a.Draw? || a.Unsupported? then 1 else 0
  {
    assert [a][..0] == [];
  }

  lemma AtOnceHandles(records: seq<Record>, n: nat)
    requires n < |records|
    ensures HandledIn(AtOnce(records, n)) == if IsOtherBatch(CheckpointAt(records, n)) then 1 else 0
  {
    hide FrontAt, HandledIn, IsScanoutRead;
    NothingHandled();
    var asked := AtOnce(records, n);
    if asked != [] {
      assert asked == [asked[0]];
      HandledOne(asked[0]);
    }
  }

  lemma {:induction false} MemoryHandlesNothing(records: seq<Record>, n: nat, m: nat)
    requires n <= m <= |records| && forall k :: n <= k < m ==> records[k].Memory?
    ensures ToHandle(records, m) == ToHandle(records, n)
    decreases m - n
  {
    hide FrontAt;
    if n < m {
      MemoryHandlesNothing(records, n, m - 1);
    }
  }

  lemma {:induction false} AskedHandles(records: seq<Record>, n: nat)
    requires n <= |records|
    ensures HandledIn(Asked(records, n)) + ToHandle(records, n) == ToHandle(records, |records|)
    decreases |records| - n
  {
    hide FrontAt, CheckpointAt, AtOnce, HandledIn, Observations, BehindMemory, Asked;
    NothingHandled();
    if n == |records| {
      NothingLeft(records);
    } else {
      AskedNext(records, n);
      if IsDraw(CheckpointAt(records, n)) {
        var m := BehindMemory(records, n + 1);
        AskedHandles(records, m);
        MemoryHandlesNothing(records, n + 1, m);
        ObservationsHandleNothing(records, n + 1, m);
        HandledOne(DrawOf(records, n));
        HandledSplit(Observations(records, n + 1, m), [DrawOf(records, n)]);
        HandledSplit(Observations(records, n + 1, m) + [DrawOf(records, n)], Asked(records, m));
      } else {
        AskedHandles(records, n + 1);
        AtOnceHandles(records, n);
        HandledSplit(AtOnce(records, n), Asked(records, n + 1));
      }
    }
  }

  /** When nothing raises, every draw or batch checkpoint of a trace is executed or counted under
      one reason, never both. */
  lemma EveryDrawAccounted(records: seq<Record>, inputs: seq<Action> -> Inputs)
    requires Clean(inputs, Asked(records, 0))
    ensures var a := Accounts(inputs, Asked(records, 0));
      a.draws + Total(a.unsupported) == ToHandle(records, |records|)
  {
    hide Accounts, Total, Asked, HandledIn, Clean;
    AccountsAddUp(inputs, Asked(records, 0));
    CleanRaisesNone(inputs, Asked(records, 0));
    AskedHandles(records, 0);
  }

  /** When something raises, all draws and batches before it are accounted for, and a draw that
      raises is not. */
  lemma AbortedAccounted(inputs: seq<Action> -> Inputs, asked: seq<Action>, history: seq<Action>)
    requires Ran(inputs, asked, history, false)
    ensures var a := Accounts(inputs, history);
      a.draws + Total(a.unsupported) == HandledIn(history[..|history| - 1])
  {
    hide Accounts, Total, Clean, Raises;
    var init, last := history[..|history| - 1], history[|history| - 1];
    AccountsAddUp(inputs, history);
    CleanRaisesNone(inputs, init);
    RaisesKind(last, inputs(history));
  }

  lemma RaisesKind(action: Action, inputs: Inputs)
    requires Raises(action, inputs)
    ensures action.Draw? || action.ClearSurface?
  {
  }

  /** With rows that fit the depth pitch at every draw and clear, every replay runs to its end. */
  lemma WideRuns(records: seq<Record>, inputs: seq<Action> -> Inputs)
    requires AllWide(Asked(records, 0))
    ensures Clean(inputs, Asked(records, 0))
  {
    hide Asked, AllWide, Clean;
    WideClean(inputs, Asked(records, 0));
  }

  /** A draw that raises is neither executed nor counted. */
  lemma NarrowUncounted(objects: Objects)
    ensures var found := NarrowInputs().(vertex := Covering(NarrowDraw(), (0, 1, 2), Geometry(8, 2, 1)));
      var log := [Draw(NarrowState(), NarrowDraw(), objects)];
      EndsRaising(_ => found, log) && Accounts(_ => found, log) == NO_ACCOUNT && HandledIn(log) == 1
  {
    hide DrawFault, DrawRaises;
    NarrowRaises();
    var found := NarrowInputs().(vertex := Covering(NarrowDraw(), (0, 1, 2), Geometry(8, 2, 1)));
    AccountsNext(_ => found, [], Draw(NarrowState(), NarrowDraw(), objects));
    assert [] + [Draw(NarrowState(), NarrowDraw(), objects)] == [Draw(NarrowState(), NarrowDraw(), objects)];
    HandledOne(Draw(NarrowState(), NarrowDraw(), objects));
  }

  /** The vertices of every draw checkpoint are as many as it says, so that its triangles name
      vertices that were read. */
  lemma SourceIndicesComplete(records: seq<Record>, n: nat)
    requires n < |records| && IsDraw(CheckpointAt(records, n))
    ensures var c := CheckpointAt(records, n).value; |SourceIndices(c)| == c.count
  {
    hide FrontAt, Store, Put;
  }
}
