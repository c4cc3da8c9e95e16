/** A pixel replay told from the records alone: which calls reach PGRAPH, what is asked at once and in
    which order, and what the counters count (nv2a_capture.py: replay_pixels). */
module PixelReplayLaws {
  import opened Wrappers
  import opened Pgraph
  import opened PgraphProofs
  import opened PixelSurface
  import opened PixelDraw
  import opened PixelReplay

  // ---- The calls of a record stream ----

  /** The objects of the last RAMIN record. */
  function LastObjects(records: seq<Record>, n: nat): Objects
    requires n <= |records|
  {
    if n == 0 then map[]
    else if records[n - 1].Ramin? then records[n - 1].objects
    else LastObjects(records, n - 1)
  }

  function MethodsBefore(records: seq<Record>, n: nat): nat
    requires n <= |records|
  {
    if n == 0 then 0 else MethodsBefore(records, n - 1) + if records[n - 1].MethodRecord? then 1 else 0
  }

  /** The call of a method record: its own fields, its place among the records and its number among
      the method records. */
  ghost predicate IsCallOf(records: seq<Record>, n: nat, c: Call)
    requires n < |records| && records[n].MethodRecord?
  {
    && c.frame == records[n].frame && c.subchannel == records[n].subchannel && c.method_ == records[n].method_
    && c.data == records[n].word && c.recordIndex == n && c.methodIndex == MethodsBefore(records, n)
  }

  /** The events of the records before `n`, each with the place of its record. */
  ghost predicate Replays(records: seq<Record>, n: nat, events: seq<Event>, places: seq<nat>)
    requires n <= |records|
  {
    && |events| == |places|
    && (forall k :: 0 <= k < |places| ==> places[k] < n)
    && (forall i, j :: 0 <= i < j < |places| ==> places[i] < places[j])
    && (forall m: nat :: m < n && (records[m].MethodRecord? || records[m].ConstantRecord?) ==> m in places)
    && forall k :: 0 <= k < |places| ==> EventOf(records, places[k], events[k])
  }

  ghost predicate EventOf(records: seq<Record>, n: nat, e: Event) {
    && n < |records|
    && match records[n]
       case MethodRecord(_, _, _, _) =>
         e.Method? && IsCallOf(records, n, e.call) && e.objects == LastObjects(records, n)
       case ConstantRecord(index, words) => e.Constant? && e.index == index && e.words == words
       case _ => false
  }

  lemma {:induction false} ObjectsFollowed(records: seq<Record>, n: nat)
    requires n <= |records|
    ensures FrontAt(records, n).objects == LastObjects(records, n)
    ensures FrontAt(records, n).methods == MethodsBefore(records, n)
  {
    hide Apply, SetConstant;
    if n > 0 {
      ObjectsFollowed(records, n - 1);
    }
  }

  lemma AfterMore(events: seq<Event>, e: Event)
    ensures After(events + [e], |events| + 1) == Step(After(events, |events|), e).0
  {
    hide Step;
    AfterPrefix(events, e, |events|);
  }

  lemma {:induction false} AfterPrefix(events: seq<Event>, e: Event, n: nat)
    requires n <= |events|
    ensures After(events + [e], n) == After(events, n)
  {
    hide Step;
    if n > 0 {
      AfterPrefix(events, e, n - 1);
    }
  }

  /** The state before every record is that of a PGRAPH run of exactly the method and state records
      before it, in their order, each call with the objects of the last RAMIN record; what holds over
      every run therefore holds at every record. */
  lemma {:induction false} FrontIsRun(records: seq<Record>, n: nat) returns (events: seq<Event>, places: seq<nat>)
    requires n <= |records|
    ensures Replays(records, n, events, places)
    ensures FrontAt(records, n).state == After(events, |events|)
  {
    hide Apply, SetConstant, LastObjects, MethodsBefore, FrontAt, Replays, EventOf, CallOf;
    if n == 0 {
      NothingReplayed(records);
      return [], [];
    }
    var r := records[n - 1];
    var before, at := FrontIsRun(records, n - 1);
    FrontNext(records, n - 1);
    if r.MethodRecord? {
      var e := MethodEvent(records, n - 1);
      events, places := before + [e], at + [n - 1];
      AfterMore(before, e);
      Placed(records, n, before, at, e);
    } else if r.ConstantRecord? {
      var e := Constant(r.index, r.words);
      assert EventOf(records, n - 1, e) by { ConstantEvent(records, n - 1); }
      events, places := before + [e], at + [n - 1];
      AfterMore(before, e);
      Placed(records, n, before, at, e);
    } else {
      events, places := before, at;
      Skipped(records, n, before, at);
    }
  }

  lemma NothingReplayed(records: seq<Record>)
    ensures Replays(records, 0, [], []) && FrontAt(records, 0).state == After([], 0)
  {
  }

  lemma ConstantEvent(records: seq<Record>, n: nat)
    requires n < |records| && records[n].ConstantRecord?
    ensures EventOf(records, n, Constant(records[n].index, records[n].words))
  {
  }

  lemma MethodEvent(records: seq<Record>, n: nat) returns (e: Event)
    requires n < |records| && records[n].MethodRecord?
    ensures var f := FrontAt(records, n);
      e == Event.Method(CallOf(records[n], n, f.methods), f.objects)
    ensures EventOf(records, n, e)
  {
    hide FrontAt, LastObjects, MethodsBefore;
    ObjectsFollowed(records, n);
    var f := FrontAt(records, n);
    e := Event.Method(CallOf(records[n], n, f.methods), f.objects);
  }

  lemma Skipped(records: seq<Record>, n: nat, events: seq<Event>, places: seq<nat>)
    requires 0 < n <= |records| && Replays(records, n - 1, events, places)
    requires !records[n - 1].MethodRecord? && !records[n - 1].ConstantRecord?
    ensures Replays(records, n, events, places)
  {
    hide EventOf;
  }

  lemma Placed(records: seq<Record>, n: nat, events: seq<Event>, places: seq<nat>, e: Event)
    requires 0 < n <= |records| && Replays(records, n - 1, events, places) && EventOf(records, n - 1, e)
    ensures Replays(records, n, events + [e], places + [n - 1])
  {
    hide EventOf;
    forall m: nat | m < n && (records[m].MethodRecord? || records[m].ConstantRecord?)
      ensures m in places + [n - 1]
    {
      assert m < n - 1 ==> m in places;
    }
  }

  /** What a method record reports is what its call reports in such a run. */
  lemma CheckpointIsReported(records: seq<Record>, n: nat) returns (events: seq<Event>, places: seq<nat>)
    requires n < |records| && records[n].MethodRecord?
    ensures Replays(records, n + 1, events, places) && events != [] && places[|places| - 1] == n
    ensures CheckpointAt(records, n) == CheckpointOf(events, |events| - 1)
  {
    hide Apply, SetConstant, LastObjects, MethodsBefore, FrontAt, Replays, EventOf, CallOf, After;
    var before, at := FrontIsRun(records, n);
    var e := MethodEvent(records, n);
    events, places := before + [e], at + [n];
    AfterPrefix(before, e, |before|);
    Placed(records, n + 1, before, at, e);
  }

  lemma NoReport(records: seq<Record>, n: nat)
    requires n < |records| && !records[n].MethodRecord?
    ensures CheckpointAt(records, n) == None
  {
    hide FrontAt;
  }

  // ---- What is asked at once ----

  /** What a record other than a draw asks. */
  ghost predicate Asks(records: seq<Record>, n: nat, asked: seq<Action>)
    requires n < |records|
  {
    var r, c, state := records[n], CheckpointAt(records, n), FrontAt(records, n + 1).state;
    if r.Ramin? then asked == [SetRamin(r.objects)]
    else if r.Scanout? then asked == [ValidateScanout(r.frame, r.size)]
    else if r.Memory? then
      asked == if n + 1 < |records| && records[n + 1].Scanout? && records[n + 1].size == |r.data| then []
               else [Observe(r.address, r.data)]
    else if c.Some? && c.value.kind == Clear then asked == [ClearSurface(state, r.frame, c.value.data)]
    else if c.Some? && c.value.kind == Present then asked == [PresentSurface(state, r.frame)]
    else if c.Some? && c.value.kind in {ImmediateBatch, InlineBatch} then asked == [Unsupported(c.value.kind)]
    else asked == []
  }

  lemma AtOnceExactly(records: seq<Record>, n: nat)
    requires n < |records|
    ensures Asks(records, n, AtOnce(records, n))
    ensures IsDraw(CheckpointAt(records, n)) <==>
      CheckpointAt(records, n).Some? && CheckpointAt(records, n).value.kind in {DrawArrays, IndexedBatch}
  {
    hide FrontAt, Apply;
  }

  /** The actions of a log other than draws. */
  function WithoutDraws(log: seq<Action>): seq<Action> {
    if log == [] then []
    else WithoutDraws(log[..|log| - 1]) + if log[|log| - 1].Draw? then [] else [log[|log| - 1]]
  }

  /** What the records from `n` on ask at once, record by record. */
  function InOrder(records: seq<Record>, n: nat): seq<Action>
    requires n <= |records|
    decreases |records| - n
  {
    if n == |records| then [] else AtOnce(records, n) + InOrder(records, n + 1)
  }

  lemma {:induction false} WithoutDrawsSplit(a: seq<Action>, b: seq<Action>)
    ensures WithoutDraws(a + b) == WithoutDraws(a) + WithoutDraws(b)
  {
    if b == [] {
      assert a + b == a;
    } else {
      WithoutDrawsSplit(a, b[..|b| - 1]);
      assert (a + b)[..|a + b| - 1] == a + b[..|b| - 1];
    }
  }

  lemma OneAction(a: Action)
    ensures WithoutDraws([a]) == if a.Draw? then [] else [a]
  {
    assert [a][..0] == [];
  }

  lemma {:induction false} ObservationsInOrder(records: seq<Record>, n: nat, m: nat)
    requires n <= m <= |records| && forall k :: n <= k < m ==> records[k].Memory?
    ensures WithoutDraws(Observations(records, n, m)) == Observations(records, n, m)
    ensures InOrder(records, n) == Observations(records, n, m) + InOrder(records, m)
    decreases m - n
  {
    hide IsScanoutRead, WithoutDraws, FrontAt, CheckpointAt, AtOnce;
    if n < m {
      ObservationsInOrder(records, n + 1, m);
      InOrderNext(records, n);
      ObservationsFirst(records, n, m);
      AtOnceNotDraw(records, n);
      WithoutDrawsSplit(AtOnce(records, n), Observations(records, n + 1, m));
    } else {
      NoActions();
      assert Observations(records, n, m) == [];
    }
  }

  lemma InOrderNext(records: seq<Record>, n: nat)
    requires n < |records|
    ensures InOrder(records, n) == AtOnce(records, n) + InOrder(records, n + 1)
  {
    hide AtOnce;
  }

  lemma NoActions()
    ensures WithoutDraws([]) == []
  {
  }

  lemma DrawAsksNothing(records: seq<Record>, n: nat)
    requires n < |records| && IsDraw(CheckpointAt(records, n))
    ensures AtOnce(records, n) == []
  {
    hide FrontAt, Apply;
  }

  lemma {:induction false} AskedInOrder(records: seq<Record>, n: nat)
    requires n <= |records|
    ensures WithoutDraws(Asked(records, n)) == InOrder(records, n)
    decreases |records| - n
  {
    hide FrontAt, CheckpointAt, AtOnce, Observations, BehindMemory, Asked, WithoutDraws, IsDraw;
    NoActions();
    if n == |records| {
      NothingLeft(records);
    } else {
      AskedNext(records, n);
      if IsDraw(CheckpointAt(records, n)) {
        var m := BehindMemory(records, n + 1);
        AskedInOrder(records, m);
        ObservationsInOrder(records, n + 1, m);
        DrawAsksNothing(records, n);
        OneAction(DrawOf(records, n));
        var observed := Observations(records, n + 1, m);
        WithoutDrawsSplit(observed, [DrawOf(records, n)]);
        WithoutDrawsSplit(observed + [DrawOf(records, n)], Asked(records, m));
      } else {
        AskedInOrder(records, n + 1);
        AtOnceNotDraw(records, n);
        WithoutDrawsSplit(AtOnce(records, n), Asked(records, n + 1));
      }
    }
  }

  lemma AtOnceNotDraw(records: seq<Record>, n: nat)
    requires n < |records|
    ensures WithoutDraws(AtOnce(records, n)) == AtOnce(records, n)
  {
    hide AtOnce, WithoutDraws, CheckpointAt;
    AtOnceObserves(records, n);
    NoActions();
    var asked := AtOnce(records, n);
    if asked != [] {
      assert asked == [asked[0]];
      OneAction(asked[0]);
    }
  }

  /** Waiting draws never reorder anything else: leaving them aside, what is asked is what the
      records ask at once, record by record. */
  lemma EffectsInOrder(records: seq<Record>)
    ensures WithoutDraws(Asked(records, 0)) == InOrder(records, 0)
    ensures forall n :: 0 <= n < |records| ==> Asks(records, n, AtOnce(records, n))
  {
    hide Asked, AtOnce, Asks, InOrder, WithoutDraws;
    AskedInOrder(records, 0);
    forall n | 0 <= n < |records|
      ensures Asks(records, n, AtOnce(records, n))
    {
      AtOnceExactly(records, n);
    }
  }

  // ---- The counters ----

  /** A draw that no fault stops and that does not raise. */
  ghost predicate Succeeds(a: Action, found: Inputs) {
    a.Draw? && DrawFault(a.state, a.checkpoint, found) == None && !DrawRaises(a.state, a.checkpoint, found)
  }

  /** A clear of a rectangle that is not empty and that does not raise. */
  ghost predicate ClearsSome(a: Action, found: Inputs) {
    a.ClearSurface? && ClearRect(a.state) != None && !ClearRaises(a.state, a.flags, found.depthSize)
  }

  ghost predicate Executes(inputs: seq<Action> -> Inputs, log: seq<Action>, i: nat) {
    i < |log| && Succeeds(log[i], inputs(log[..i + 1]))
  }

  ghost function Executed(inputs: seq<Action> -> Inputs, log: seq<Action>): set<nat> {
    set i: nat | i < |log| && Executes(inputs, log, i)
  }

  ghost function Textured(inputs: seq<Action> -> Inputs, log: seq<Action>): set<nat> {
    set i: nat | i < |log| && Executes(inputs, log, i) && StageActive(log[i].state, 0)
  }

  ghost predicate Clears(inputs: seq<Action> -> Inputs, log: seq<Action>, i: nat) {
    i < |log| && ClearsSome(log[i], inputs(log[..i + 1]))
  }

  ghost function ClearsIn(inputs: seq<Action> -> Inputs, log: seq<Action>): set<nat> {
    set i: nat | i < |log| && Clears(inputs, log, i)
  }

  ghost function PresentsIn(log: seq<Action>): set<nat> {
    set i: nat | i < |log| && log[i].PresentSurface?
  }

  lemma OneMoreExecuted(inputs: seq<Action> -> Inputs, log: seq<Action>)
    requires log != []
    ensures var last := |log| - 1;
      Executed(inputs, log) == Executed(inputs, log[..last]) + if Executes(inputs, log, last) then {last} else {}
    ensures var last := |log| - 1;
      Textured(inputs, log) == Textured(inputs, log[..last]) +
        if Executes(inputs, log, last) && StageActive(log[last].state, 0) then {last} else {}
  {
    hide DrawFault, DrawRaises, StageActive;
    var last := |log| - 1;
    forall i: nat | i < last
      ensures Executes(inputs, log, i) <==> Executes(inputs, log[..last], i)
    {
      assert log[..last][..i + 1] == log[..i + 1];
    }
  }

  lemma OneMoreClear(inputs: seq<Action> -> Inputs, log: seq<Action>)
    requires log != []
    ensures var last := |log| - 1;
      ClearsIn(inputs, log) == ClearsIn(inputs, log[..last]) + if Clears(inputs, log, last) then {last} else {}
  {
    hide ClearRect, ClearRaises;
    var last := |log| - 1;
    forall i: nat | i < last
      ensures Clears(inputs, log, i) <==> Clears(inputs, log[..last], i)
    {
      assert log[..last][..i + 1] == log[..i + 1];
    }
  }

  lemma OneMorePresent(log: seq<Action>)
    requires log != []
    ensures var last := |log| - 1;
      PresentsIn(log) == PresentsIn(log[..last]) + if log[last].PresentSurface? then {last} else {}
  {
  }

  lemma CountedBy(a: Account, action: Action, found: Inputs)
    ensures var b := PixelReplay.Counted(a, action, found);
      && b.draws == a.draws + (if Succeeds(action, found) then 1 else 0)
      && b.textured == a.textured + (if Succeeds(action, found) && StageActive(action.state, 0) then 1 else 0)
      && b.triangles == a.triangles + (if Succeeds(action, found) then |Triangles(action.checkpoint)| else 0)
      && b.clears == a.clears + (if ClearsSome(action, found) then 1 else 0)
      && b.presents == a.presents + (if action.PresentSurface? then 1 else 0)
  {
    hide DrawFault, DrawRaises, StageActive, ClearRect, ClearRaises, Noted, Triangles;
  }

  lemma CountedAs(inputs: seq<Action> -> Inputs, log: seq<Action>)
    requires log != []
    ensures var last := |log| - 1;
      var a, b := Accounts(inputs, log[..last]), Accounts(inputs, log);
      && b.draws == a.draws + (if Executes(inputs, log, last) then 1 else 0)
      && b.textured == a.textured + (if Executes(inputs, log, last) && StageActive(log[last].state, 0) then 1 else 0)
      && b.triangles == a.triangles + (if Executes(inputs, log, last) then |Triangles(log[last].checkpoint)| else 0)
      && b.clears == a.clears + (if Clears(inputs, log, last) then 1 else 0)
      && b.presents == a.presents + (if log[last].PresentSurface? then 1 else 0)
  {
    hide Succeeds, ClearsSome, StageActive, Triangles, PixelReplay.Counted;
    assert log[..|log|] == log;
    CountedBy(Accounts(inputs, log[..|log| - 1]), log[|log| - 1], inputs(log));
  }

  /** Each counter counts what it is named after: draws that no fault stops and that do not raise,
      those of them with the first texture stage active, clears of a non-empty rectangle that do not
      raise, and presents. */
  lemma {:induction false} CountersExactly(inputs: seq<Action> -> Inputs, log: seq<Action>)
    ensures var a := Accounts(inputs, log);
      && a.draws == |Executed(inputs, log)| && a.textured == |Textured(inputs, log)|
      && a.clears == |ClearsIn(inputs, log)| && a.presents == |PresentsIn(log)|
  {
    hide Executes, Clears, StageActive, Accounts;
    if log == [] {
      NothingAccounted(inputs);
      assert Executed(inputs, log) == {} && Textured(inputs, log) == {};
      assert ClearsIn(inputs, log) == {} && PresentsIn(log) == {};
    } else {
      CountersExactly(inputs, log[..|log| - 1]);
      CountedAs(inputs, log);
      OneMoreExecuted(inputs, log);
      OneMoreClear(inputs, log);
      OneMorePresent(log);
    }
  }

  lemma NothingAccounted(inputs: seq<Action> -> Inputs)
    ensures Accounts(inputs, []) == Account(0, 0, 0, 0, 0, map[])
  {
  }
}
