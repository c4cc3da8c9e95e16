/** Which violations assembling a trace reports, told from the records (tools/traceevt.py:
    assemble_logical_records, decode_event_file). */
module TraceLaws {
  import opened Wrappers
  import opened TraceAssembly

  /** The continuation expected at place `k` of a group is there and belongs to it. */
  ghost predicate Belongs(records: seq<Record>, n: nat, expected: seq<nat>, k: nat)
    requires n < |records| && k < |expected|
  {
    && n + 1 + k < |records|
    && records[n + 1 + k].event == expected[k] && records[n + 1 + k].tick == records[n].tick
    && records[n + 1 + k].lseq == records[n].lseq && records[n + 1 + k].thread == records[n].thread
  }

  /** Place `k` is the first at which the expected continuation is missing or foreign. */
  ghost predicate FirstBreak(records: seq<Record>, n: nat, expected: seq<nat>, k: nat)
    requires n < |records|
  {
    k < |expected| && !Belongs(records, n, expected, k) && forall j :: 0 <= j < k ==> Belongs(records, n, expected, j)
  }

  /** A group begun by a head record fails where its first continuation does not belong: as partial
      when the trace ends there, and as malformed otherwise. */
  lemma FaultExactly(records: seq<Record>, n: nat, expected: seq<nat>)
    requires n < |records|
    ensures Fault(records, n, expected, 0) == None <==>
      forall k :: 0 <= k < |expected| ==> Belongs(records, n, expected, k)
    ensures forall k: nat :: FirstBreak(records, n, expected, k) ==>
      Fault(records, n, expected, 0)
        == Some(if n + 1 + k >= |records| then Partial(records[n].event) else Malformed(records[n].event))
  {
    FaultFrom(records, n, expected, 0);
  }

  lemma {:induction false} FaultFrom(records: seq<Record>, n: nat, expected: seq<nat>, from: nat)
    requires n < |records| && from <= |expected|
    requires forall j :: 0 <= j < from ==> Belongs(records, n, expected, j)
    ensures Fault(records, n, expected, from) == None <==>
      forall k :: from <= k < |expected| ==> Belongs(records, n, expected, k)
    ensures forall k: nat :: FirstBreak(records, n, expected, k) ==>
      Fault(records, n, expected, from)
        == Some(if n + 1 + k >= |records| then Partial(records[n].event) else Malformed(records[n].event))
    decreases |expected| - from
  {
    if from < |expected| && Belongs(records, n, expected, from) {
      FaultFrom(records, n, expected, from + 1);
    }
  }

  /** What a record becomes: an unregistered event stands for itself, a continuation that no head asks
      for is an orphan, and a head whose group is complete takes the arguments of the whole group. */
  lemma RecordBecomes(registry: Registry, records: seq<Record>, n: nat)
    requires n < |records|
    ensures var r, item := records[n], ItemAt(registry, records, n);
      if r.event !in registry then
        && item.Group? && !item.logical.known && item.logical.record == r && item.logical.values == [r.argument]
        && ItemSize(registry, item) == 1
      else if exists head :: head in registry && r.event in registry[head] then
        && item.Bad? && item.record == r && item.violation.Orphan?
        && item.violation.event == r.event && item.violation.index == n && ItemSize(registry, item) == 1
      else if Fault(records, n, registry[r.event], 0) != None then
        && item.Bad? && item.record == r && Some(item.violation) == Fault(records, n, registry[r.event], 0)
        && ItemSize(registry, item) == 1
      else
        && item.Group? && item.logical.known && item.logical.record == r
        && ItemSize(registry, item) == |item.logical.values| == 1 + |registry[r.event]| <= |records| - n
        && forall k :: 0 <= k < |item.logical.values| ==> item.logical.values[k] == records[n + k].argument
  {
    hide Fault;
    ItemUnfolds(registry, records, n);
  }

  // ---- Sequence faults ----

  /** Record `i` is the last checked one of its thread before `j`. */
  ghost predicate LastBefore(ls: seq<Logical>, attach: nat, dropped: nat, i: nat, j: nat) {
    && i < j < |ls| && Counts(ls[i], attach, dropped) && ls[i].record.thread == ls[j].record.thread
    && forall k :: i < k < j ==> !Counts(ls[k], attach, dropped) || ls[k].record.thread != ls[j].record.thread
  }

  /** Attachments and notes of dropped records have no place in the sequence. */
  ghost predicate Counts(l: Logical, attach: nat, dropped: nat) {
    !(l.record.event in {attach, dropped})
  }

  /** Record `j` does not exceed the one before it on its thread. */
  ghost predicate StepsBack(ls: seq<Logical>, attach: nat, dropped: nat, j: nat) {
    && j < |ls| && Counts(ls[j], attach, dropped)
    && exists i: nat :: LastBefore(ls, attach, dropped, i, j) && ls[j].record.lseq <= ls[i].record.lseq
  }

  /** The faults of the records at `places`. */
  ghost predicate Reports(ls: seq<Logical>, attach: nat, dropped: nat, faults: seq<SequenceFault>, places: seq<nat>) {
    && |faults| == |places|
    && (forall a, b :: 0 <= a < b < |places| ==> places[a] < places[b])
    && (forall j: nat :: j in places <==> StepsBack(ls, attach, dropped, j))
    && forall a :: 0 <= a < |places| ==> Describes(ls, attach, dropped, faults[a], places[a])
  }

  ghost predicate Describes(ls: seq<Logical>, attach: nat, dropped: nat, fault: SequenceFault, j: nat) {
    && j < |ls| && fault.thread == ls[j].record.thread && fault.sequence == ls[j].record.lseq
    && exists i: nat :: LastBefore(ls, attach, dropped, i, j) && fault.previous == ls[i].record.lseq
  }

  lemma BeforeInit(ls: seq<Logical>, attach: nat, dropped: nat, i: nat, j: nat)
    requires ls != [] && j < |ls| - 1
    ensures LastBefore(ls, attach, dropped, i, j) <==> LastBefore(ls[..|ls| - 1], attach, dropped, i, j)
  {
    hide Counts;
    var init := ls[..|ls| - 1];
    assert forall k :: 0 <= k < |init| ==> init[k] == ls[k];
  }

  lemma StepsInit(ls: seq<Logical>, attach: nat, dropped: nat, j: nat)
    requires ls != [] && j < |ls| - 1
    ensures StepsBack(ls, attach, dropped, j) <==> StepsBack(ls[..|ls| - 1], attach, dropped, j)
  {
    hide Counts, LastBefore;
    var init := ls[..|ls| - 1];
    forall i: nat
      ensures LastBefore(ls, attach, dropped, i, j) <==> LastBefore(init, attach, dropped, i, j)
    {
      BeforeInit(ls, attach, dropped, i, j);
    }
    assert init[j] == ls[j];
    assert forall i: nat :: LastBefore(init, attach, dropped, i, j) ==> i < j && init[i] == ls[i] by {
      Earlier(init, attach, dropped, j);
    }
  }

  lemma Earlier(ls: seq<Logical>, attach: nat, dropped: nat, j: nat)
    ensures forall i: nat :: LastBefore(ls, attach, dropped, i, j) ==> i < j < |ls|
  {
  }

  lemma DescribesInit(ls: seq<Logical>, attach: nat, dropped: nat, fault: SequenceFault, j: nat)
    requires ls != [] && Describes(ls[..|ls| - 1], attach, dropped, fault, j)
    ensures Describes(ls, attach, dropped, fault, j)
  {
    hide Counts, LastBefore;
    var init := ls[..|ls| - 1];
    Earlier(init, attach, dropped, j);
    var i: nat :| LastBefore(init, attach, dropped, i, j) && fault.previous == init[i].record.lseq;
    BeforeInit(ls, attach, dropped, i, j);
    assert init[i] == ls[i] && init[j] == ls[j];
  }

  /** The last checked record of a thread before the last record is unique. */
  lemma OnlyOneBefore(ls: seq<Logical>, attach: nat, dropped: nat, j: nat)
    ensures forall a: nat, b: nat ::
      LastBefore(ls, attach, dropped, a, j) && LastBefore(ls, attach, dropped, b, j) ==> a == b
  {
    hide Counts;
  }

  /** What the dictionary holds when the last record is checked. */
  lemma LastSeen(ls: seq<Logical>, attach: nat, dropped: nat)
    requires ls != []
    ensures var j := |ls| - 1;
      var previous := Previous(ls[..j], attach, dropped, ls[j].record.thread);
      && (previous == None ==> forall i: nat :: !LastBefore(ls, attach, dropped, i, j))
      && (previous.Some? ==>
            exists i: nat :: LastBefore(ls, attach, dropped, i, j) && ls[i].record.lseq == previous.value)
  {
    hide Previous;
    var j := |ls| - 1;
    var init := ls[..j];
    assert forall k :: 0 <= k < j ==> init[k] == ls[k];
    var k := PreviousIsLast(init, attach, dropped, ls[j].record.thread);
    if Previous(init, attach, dropped, ls[j].record.thread).Some? {
      assert LastBefore(ls, attach, dropped, k, j);
    }
  }

  /** The check reports, in order, exactly the records whose number does not exceed that of the
      last checked record of their thread, each with its thread and both numbers. */
  lemma {:induction false} FaultsExactly(ls: seq<Logical>, attach: nat, dropped: nat) returns (places: seq<nat>)
    ensures Reports(ls, attach, dropped, SequenceFaults(ls, attach, dropped), places)
  {
    hide Previous, Describes, StepsBack;
    if ls == [] {
      places := [];
      NoSteps(attach, dropped);
      return;
    }
    var j := |ls| - 1;
    var init := ls[..j];
    var before := FaultsExactly(init, attach, dropped);
    var more := LastFault(ls, attach, dropped);
    var faults := SequenceFaults(init, attach, dropped);
    assert SequenceFaults(ls, attach, dropped) == faults + more;
    places := before + if more != [] then [j] else [];
    forall m: nat | m < j
      ensures StepsBack(ls, attach, dropped, m) <==> m in before
    {
      StepsInit(ls, attach, dropped, m);
    }
    StepsInside(init, attach, dropped);
    StepsInside(ls, attach, dropped);
    forall a | 0 <= a < |before|
      ensures Describes(ls, attach, dropped, faults[a], before[a])
    {
      DescribesInit(ls, attach, dropped, faults[a], before[a]);
    }
    assert forall a :: 0 <= a < |before| ==> before[a] in before;
  }

  lemma NoSteps(attach: nat, dropped: nat)
    ensures forall j: nat :: !StepsBack([], attach, dropped, j)
  {
  }

  lemma StepsInside(ls: seq<Logical>, attach: nat, dropped: nat)
    ensures forall j: nat :: StepsBack(ls, attach, dropped, j) ==> j < |ls|
  {
  }

  lemma LastFault(ls: seq<Logical>, attach: nat, dropped: nat) returns (more: seq<SequenceFault>)
    requires ls != []
    ensures SequenceFaults(ls, attach, dropped) == SequenceFaults(ls[..|ls| - 1], attach, dropped) + more
    ensures more == [] || |more| == 1
    ensures more != [] <==> StepsBack(ls, attach, dropped, |ls| - 1)
    ensures more != [] ==> Describes(ls, attach, dropped, more[0], |ls| - 1)
  {
    hide Previous, LastBefore;
    var j := |ls| - 1;
    LastSeen(ls, attach, dropped);
    OnlyOneBefore(ls, attach, dropped, j);
    var r := ls[j].record;
    var previous := Previous(ls[..j], attach, dropped, r.thread);
    more := if Checked(ls[j], attach, dropped) && previous.Some? && r.lseq <= previous.value then
              [SequenceFault(r.thread, r.lseq, previous.value)]
            else [];
  }
}
