/** Assembly of binary trace records into logical events, with resynchronisation, and the
    per-thread sequence check (tools/traceevt.py: assemble_logical_records, decode_event_file). */
module TraceAssembly {
  import opened Wrappers

  datatype Record = Record(tick: nat, lseq: nat, event: nat, thread: nat, argument: nat)

  /** Event id to the ids of its continuation records. */
  type Registry = map<nat, seq<nat>>

  /** An assembled event; `known` tells whether the registry has it. */
  datatype Logical = Logical(known: bool, record: Record, values: seq<nat>)

  datatype Violation =
    | Orphan(event: nat, index: nat)
    | Partial(event: nat)
    | Malformed(event: nat)

  predicate IsContinuation(registry: Registry, event: nat) {
    exists head :: head in registry && event in registry[head]
  }

  /** The ids of all continuation records. */
  ghost predicate Continuations(registry: Registry, ids: set<nat>) {
    forall event: nat :: event in ids <==> IsContinuation(registry, event)
  }

  // ---- One group ----

  /** `next` continues a group begun by `head` with an event of id `expected`. */
  predicate Continues(head: Record, next: Record, expected: nat) {
    next.event == expected && next.tick == head.tick && next.lseq == head.lseq && next.thread == head.thread
  }

  /** Why the group begun at `n` fails at its continuation `k` or a later one. */
  function Fault(records: seq<Record>, n: nat, expected: seq<nat>, k: nat): Option<Violation>
    requires n < |records| && k <= |expected|
    decreases |expected| - k
  {
    if k == |expected| then None
    else if n + 1 + k >= |records| then Some(Partial(records[n].event))
    else if !Continues(records[n], records[n + 1 + k], expected[k]) then Some(Malformed(records[n].event))
    else Fault(records, n, expected, k + 1)
  }

  function Arguments(records: seq<Record>): seq<nat> {
    seq(|records|, i requires 0 <= i < |records| => records[i].argument)
  }

  // ---- The whole input ----

  /** How the input is taken apart: assembled events, and records that account for one violation. */
  datatype Item = Group(logical: Logical) | Bad(record: Record, violation: Violation)

  /** Number of records of the group begun by a known event. */
  function GroupSize(registry: Registry, event: nat): nat
    requires event in registry
  {
    1 + |registry[event]|
  }

  function ItemAt(registry: Registry, records: seq<Record>, n: nat): Item
    requires n < |records|
  {
    var r := records[n];
    if r.event !in registry then Group(Logical(false, r, [r.argument]))
    else if IsContinuation(registry, r.event) then Bad(r, Orphan(r.event, n))
    else match Fault(records, n, registry[r.event], 0)
      case Some(v) => Bad(r, v)
      case None =>
        GroupFits(records, n, registry[r.event], 0);
        Group(Logical(true, r, Arguments(records[n..n + GroupSize(registry, r.event)])))
  }

  function ItemSize(registry: Registry, item: Item): (size: nat)
    ensures size > 0
  {
    if item.Group? && item.logical.known && item.logical.record.event in registry then
      GroupSize(registry, item.logical.record.event)
    else 1
  }

  lemma {:induction false} GroupFits(records: seq<Record>, n: nat, expected: seq<nat>, k: nat)
    requires n < |records| && k <= |expected| && Fault(records, n, expected, k) == None
    ensures k < |expected| ==> n + 1 + |expected| <= |records|
    ensures forall i :: k <= i < |expected| ==> Continues(records[n], records[n + 1 + i], expected[i])
    decreases |expected| - k
  {
    hide Continues;
    if k < |expected| {
      GroupFits(records, n, expected, k + 1);
    }
  }

  function Items(registry: Registry, records: seq<Record>, n: nat): seq<Item>
    requires n <= |records|
    decreases |records| - n
  {
    if n == |records| then []
    else
      var item := ItemAt(registry, records, n);
      ItemFits(registry, records, n);
      [item] + Items(registry, records, n + ItemSize(registry, item))
  }

  lemma ItemFits(registry: Registry, records: seq<Record>, n: nat)
    requires n < |records|
    ensures n + ItemSize(registry, ItemAt(registry, records, n)) <= |records|
  {
    hide IsContinuation;
    var r := records[n];
    if r.event in registry && Fault(records, n, registry[r.event], 0) == None {
      GroupFits(records, n, registry[r.event], 0);
    }
  }

  function Groups(items: seq<Item>): seq<Logical> {
    if items == [] then []
    else (if items[0].Group? then [items[0].logical] else []) + Groups(items[1..])
  }

  function Violations(items: seq<Item>): seq<Violation> {
    if items == [] then []
    else (if items[0].Bad? then [items[0].violation] else []) + Violations(items[1..])
  }

  method AssembleLogicalRecords(registry: Registry, records: seq<Record>)
    returns (logical: seq<Logical>, violations: seq<Violation>)
    ensures logical == Groups(Items(registry, records, 0)) && violations == Violations(Items(registry, records, 0))
  {
    hide ItemAt, ItemSize, Items, Groups, Violations;
    var continuations := set head, event | head in registry && event in registry[head] :: event;
    logical, violations := [], [];
    var index: nat := 0;
    while index < |records|
      invariant index <= |records|
      invariant logical + Groups(Items(registry, records, index)) == Groups(Items(registry, records, 0))
      invariant violations + Violations(Items(registry, records, index)) == Violations(Items(registry, records, 0))
    {
      var item, next := AssembleOne(registry, continuations, records, index);
      ItemsNext(registry, records, index);
      if item.Group? {
        logical := logical + [item.logical];
      } else {
        violations := violations + [item.violation];
      }
      index := next;
    }
    ItemsEnd(registry, records);
  }

  /** One round: an event the registry does not have, an orphan continuation, or a head record
      with or without its group. A failed head gives up only its own record. */
  method AssembleOne(registry: Registry, continuations: set<nat>, records: seq<Record>, n: nat)
    returns (item: Item, next: nat)
    requires n < |records| && Continuations(registry, continuations)
    ensures item == ItemAt(registry, records, n) && next == n + ItemSize(registry, item)
  {
    hide IsContinuation, ItemAt, Arguments, Fault;
    var r := records[n];
    ItemUnfolds(registry, records, n);
    if r.event !in registry {
      return Group(Logical(false, r, [r.argument])), n + 1;
    }
    if r.event in continuations {
      return Bad(r, Orphan(r.event, n)), n + 1;
    }
    var values, fault := ReadGroup(records, n, registry[r.event]);
    if fault == None {
      return Group(Logical(true, r, values)), n + |registry[r.event]| + 1;
    }
    return Bad(r, fault.value), n + 1;
  }

  /** The continuation loop of one head record. */
  method ReadGroup(records: seq<Record>, n: nat, expected: seq<nat>) returns (values: seq<nat>,
                   fault: Option<Violation>)
    requires n < |records|
    ensures fault == Fault(records, n, expected, 0)
    ensures fault == None ==> n + 1 + |expected| <= |records| && values == Arguments(records[n..n + 1 + |expected|])
  {
    values := [records[n].argument];
    for k := 0 to |expected|
      invariant n + 1 + k <= |records| && values == Arguments(records[n..n + 1 + k])
      invariant Fault(records, n, expected, 0) == Fault(records, n, expected, k)
    {
      var next := n + 1 + k;
      if next >= |records| {
        return values, Some(Partial(records[n].event));
      }
      if !Continues(records[n], records[next], expected[k]) {
        return values, Some(Malformed(records[n].event));
      }
      values := values + [records[next].argument];
    }
    return values, None;
  }

  lemma ItemsNext(registry: Registry, records: seq<Record>, n: nat)
    requires n < |records|
    ensures var item := ItemAt(registry, records, n);
      && n + ItemSize(registry, item) <= |records|
      && Groups(Items(registry, records, n))
        == (if item.Group? then [item.logical] else []) + Groups(Items(registry, records, n + ItemSize(registry, item)))
      && Violations(Items(registry, records, n))
        == (if item.Bad? then [item.violation] else [])
          + Violations(Items(registry, records, n + ItemSize(registry, item)))
  {
    hide ItemAt, ItemSize;
    ItemFits(registry, records, n);
    var item := ItemAt(registry, records, n);
    var rest := Items(registry, records, n + ItemSize(registry, item));
    assert ([item] + rest)[1..] == rest;
  }

  lemma ItemUnfolds(registry: Registry, records: seq<Record>, n: nat)
    requires n < |records|
    ensures var r := records[n]; var item := ItemAt(registry, records, n);
      if r.event !in registry then item == Group(Logical(false, r, [r.argument]))
      else if IsContinuation(registry, r.event) then item == Bad(r, Orphan(r.event, n))
      else match Fault(records, n, registry[r.event], 0)
        case Some(v) => item == Bad(r, v)
        case None =>
          n + GroupSize(registry, r.event) <= |records| &&
          item == Group(Logical(true, r, Arguments(records[n..n + GroupSize(registry, r.event)])))
  {
    hide IsContinuation, Arguments, Fault;
    ItemFits(registry, records, n);
  }

  lemma ItemsEnd(registry: Registry, records: seq<Record>)
    ensures Groups(Items(registry, records, |records|)) == [] && Violations(Items(registry, records, |records|)) == []
  {
  }

  // ---- Nothing is lost ----

  /** A logical record as the recorder writes it. */
  predicate ValidLogical(registry: Registry, l: Logical) {
    if l.known then
      && l.record.event in registry && !IsContinuation(registry, l.record.event)
      && |l.values| == GroupSize(registry, l.record.event) && l.values[0] == l.record.argument
    else l.record.event !in registry && l.values == [l.record.argument]
  }

  /** Record `i` of a logical record's group. */
  function Part(registry: Registry, l: Logical, i: nat): Record
    requires ValidLogical(registry, l) && i < |l.values|
  {
    if i == 0 then l.record
    else l.record.(event := registry[l.record.event][i - 1], argument := l.values[i])
  }

  function Flat(registry: Registry, l: Logical): seq<Record>
    requires ValidLogical(registry, l)
  {
    seq(|l.values|, i requires 0 <= i < |l.values| => Part(registry, l, i))
  }

  predicate ValidItem(registry: Registry, item: Item) {
    item.Group? ==> ValidLogical(registry, item.logical)
  }

  function FlatItem(registry: Registry, item: Item): seq<Record>
    requires ValidItem(registry, item)
  {
    match item
    case Group(l) => Flat(registry, l)
    case Bad(r, _) => [r]
  }

  function FlatItems(registry: Registry, items: seq<Item>): seq<Record>
    requires forall item :: item in items ==> ValidItem(registry, item)
  {
    if items == [] then [] else FlatItem(registry, items[0]) + FlatItems(registry, items[1..])
  }

  /** An item stands for exactly the records it was taken from. */
  lemma ItemFlattens(registry: Registry, records: seq<Record>, n: nat)
    requires n < |records|
    ensures var item := ItemAt(registry, records, n);
      && n + ItemSize(registry, item) <= |records| && ValidItem(registry, item)
      && FlatItem(registry, item) == records[n..n + ItemSize(registry, item)]
  {
    hide IsContinuation, Fault, ItemAt;
    ItemUnfolds(registry, records, n);
    ItemFits(registry, records, n);
    var r := records[n];
    var item := ItemAt(registry, records, n);
    if item.Group? && item.logical.known {
      GroupFits(records, n, registry[r.event], 0);
      GroupFlattens(registry, records, n, item.logical);
    }
  }

  lemma GroupFlattens(registry: Registry, records: seq<Record>, n: nat, l: Logical)
    requires n < |records| && l.known && l.record == records[n] && ValidLogical(registry, l)
    requires n + |l.values| <= |records| && l.values == Arguments(records[n..n + |l.values|])
    requires forall i :: 0 <= i < |registry[l.record.event]| ==>
      Continues(records[n], records[n + 1 + i], registry[l.record.event][i])
    ensures Flat(registry, l) == records[n..n + |l.values|]
  {
    hide IsContinuation;
    forall i | 0 < i < |l.values|
      ensures Part(registry, l, i) == records[n + i]
    {
      assert Continues(records[n], records[n + 1 + (i - 1)], registry[l.record.event][i - 1]);
      assert records[n..n + |l.values|][i] == records[n + i];
    }
  }

  /** Nothing is lost and nothing is reordered: the items, each an assembled group or one
      record with its one violation, make up the input. */
  lemma {:induction false} ItemsMakeUpInput(registry: Registry, records: seq<Record>, n: nat)
    requires n <= |records|
    ensures var items := Items(registry, records, n);
      && (forall item :: item in items ==> ValidItem(registry, item))
      && FlatItems(registry, items) == records[n..]
    decreases |records| - n
  {
    hide ItemAt, ItemSize, ValidItem, FlatItem;
    if n < |records| {
      ItemFlattens(registry, records, n);
      var item := ItemAt(registry, records, n);
      var next := n + ItemSize(registry, item);
      ItemsMakeUpInput(registry, records, next);
      assert ([item] + Items(registry, records, next))[1..] == Items(registry, records, next);
      assert records[n..] == records[n..next] + records[next..];
    }
  }

  /** Records in the assembled groups. */
  function Assembled(groups: seq<Logical>): nat {
    if groups == [] then 0 else |groups[0].values| + Assembled(groups[1..])
  }

  lemma {:induction false} SizesAdd(registry: Registry, items: seq<Item>)
    requires forall item :: item in items ==> ValidItem(registry, item)
    ensures |FlatItems(registry, items)| == Assembled(Groups(items)) + |Violations(items)|
  {
    if items == [] {
    } else {
      var rest := items[1..];
      SizesAdd(registry, rest);
      assert items[0] in items;
      if items[0].Group? {
        assert Groups(items)[1..] == Groups(rest);
        assert Violations(items) == Violations(rest);
      } else {
        assert Groups(items) == Groups(rest);
      }
    }
  }

  /** Every record is part of an assembled group or accounts for exactly one violation. */
  lemma RecordsConserved(registry: Registry, records: seq<Record>)
    ensures var items := Items(registry, records, 0);
      |records| == Assembled(Groups(items)) + |Violations(items)|
  {
    hide Items;
    ItemsMakeUpInput(registry, records, 0);
    SizesAdd(registry, Items(registry, records, 0));
    assert records[0..] == records;
  }

  // ---- Round trip ----

  function FlatAll(registry: Registry, ls: seq<Logical>): seq<Record>
    requires forall l :: l in ls ==> ValidLogical(registry, l)
  {
    if ls == [] then [] else Flat(registry, ls[0]) + FlatAll(registry, ls[1..])
  }

  function AllGroups(ls: seq<Logical>): seq<Item> {
    seq(|ls|, i requires 0 <= i < |ls| => Group(ls[i]))
  }

  lemma {:induction false} NoFault(registry: Registry, records: seq<Record>, n: nat, l: Logical, k: nat)
    requires l.known && ValidLogical(registry, l) && n + |l.values| <= |records|
    requires records[n..n + |l.values|] == Flat(registry, l) && k <= |registry[l.record.event]|
    ensures n < |records| && Fault(records, n, registry[l.record.event], k) == None
    decreases |registry[l.record.event]| - k
  {
    hide IsContinuation;
    var expected := registry[l.record.event];
    assert records[n] == Flat(registry, l)[0];
    if k < |expected| {
      assert records[n + 1 + k] == records[n..n + |l.values|][1 + k] == Part(registry, l, 1 + k);
      NoFault(registry, records, n, l, k + 1);
    }
  }

  /** A flattened logical record is taken for itself. */
  lemma ItemReassembles(registry: Registry, records: seq<Record>, n: nat, l: Logical)
    requires ValidLogical(registry, l) && n + |l.values| <= |records|
    requires records[n..n + |l.values|] == Flat(registry, l)
    ensures n < |records| && ItemAt(registry, records, n) == Group(l) && ItemSize(registry, Group(l)) == |l.values|
  {
    hide IsContinuation, Fault, ItemAt;
    assert |l.values| > 0;
    assert records[n] == Flat(registry, l)[0] == l.record;
    ItemUnfolds(registry, records, n);
    if l.known {
      NoFault(registry, records, n, l, 0);
      FlatArguments(registry, l);
    }
  }

  lemma FlatArguments(registry: Registry, l: Logical)
    requires ValidLogical(registry, l)
    ensures Arguments(Flat(registry, l)) == l.values
  {
    hide IsContinuation;
  }

  lemma {:induction false} Reassembles(registry: Registry, before: seq<Record>, ls: seq<Logical>)
    requires forall l :: l in ls ==> ValidLogical(registry, l)
    ensures Items(registry, before + FlatAll(registry, ls), |before|) == AllGroups(ls)
    decreases |ls|
  {
    hide ValidLogical, ItemAt, ItemSize;
    var records := before + FlatAll(registry, ls);
    if ls == [] {
    } else {
      var l, rest := ls[0], ls[1..];
      var flat := Flat(registry, l);
      assert records == before + flat + FlatAll(registry, rest);
      assert records[|before|..|before| + |l.values|] == flat;
      ItemReassembles(registry, records, |before|, l);
      Reassembles(registry, before + flat, rest);
      assert AllGroups(ls) == [Group(l)] + AllGroups(rest);
    }
  }

  lemma {:induction false} GroupsOfAll(ls: seq<Logical>)
    ensures Groups(AllGroups(ls)) == ls && Violations(AllGroups(ls)) == []
  {
    if ls == [] {
    } else {
      GroupsOfAll(ls[1..]);
      assert AllGroups(ls)[1..] == AllGroups(ls[1..]);
    }
  }

  /** Flattening any valid logical records and assembling them again gives them back, with no
      violation. */
  lemma AssemblyInvertsFlattening(registry: Registry, ls: seq<Logical>)
    requires forall l :: l in ls ==> ValidLogical(registry, l)
    ensures var items := Items(registry, FlatAll(registry, ls), 0);
      Groups(items) == ls && Violations(items) == []
  {
    hide Items, ValidLogical;
    Reassembles(registry, [], ls);
    GroupsOfAll(ls);
    assert [] + FlatAll(registry, ls) == FlatAll(registry, ls);
  }

  // ---- The per-thread sequence check ----

  /** `sequence` follows `previous` on a thread without exceeding it. */
  datatype SequenceFault = SequenceFault(thread: nat, sequence: nat, previous: nat)

  predicate Checked(l: Logical, attach: nat, dropped: nat) {
    l.record.event != attach && l.record.event != dropped
  }

  /** The sequence number of the last checked record of a thread. */
  function Previous(ls: seq<Logical>, attach: nat, dropped: nat, thread: nat): Option<nat> {
    if ls == [] then None
    else
      var last := ls[|ls| - 1];
      if Checked(last, attach, dropped) && last.record.thread == thread then Some(last.record.lseq)
      else Previous(ls[..|ls| - 1], attach, dropped, thread)
  }

  function SequenceFaults(ls: seq<Logical>, attach: nat, dropped: nat): seq<SequenceFault> {
    if ls == [] then []
    else
      var init, r := ls[..|ls| - 1], ls[|ls| - 1].record;
      var previous := Previous(init, attach, dropped, r.thread);
      SequenceFaults(init, attach, dropped)
      + if Checked(ls[|ls| - 1], attach, dropped) && previous.Some? && r.lseq <= previous.value then
          [SequenceFault(r.thread, r.lseq, previous.value)]
        else []
  }

  method CheckSequences(ls: seq<Logical>, attach: nat, dropped: nat) returns (violations: seq<SequenceFault>)
    ensures violations == SequenceFaults(ls, attach, dropped)
  {
    violations := [];
    var previousSequence: map<nat, nat> := map[];
    for i := 0 to |ls|
      invariant violations == SequenceFaults(ls[..i], attach, dropped)
      invariant forall thread: nat ::
        Previous(ls[..i], attach, dropped, thread)
        == (if thread in previousSequence then Some(previousSequence[thread]) else None)
    {
      assert ls[..i + 1][..i] == ls[..i];
      if Checked(ls[i], attach, dropped) {
        var thread, sequence := ls[i].record.thread, ls[i].record.lseq;
        if thread in previousSequence && sequence <= previousSequence[thread] {
          violations := violations + [SequenceFault(thread, sequence, previousSequence[thread])];
        }
        previousSequence := previousSequence[thread := sequence];
      }
    }
    assert ls[..|ls|] == ls;
  }

  /** Sequence numbers strictly increase on every thread. */
  ghost predicate Increasing(ls: seq<Logical>, attach: nat, dropped: nat) {
    forall i, j ::
      (0 <= i < j < |ls| && Checked(ls[i], attach, dropped) && Checked(ls[j], attach, dropped)
       && ls[i].record.thread == ls[j].record.thread)
      ==> ls[i].record.lseq < ls[j].record.lseq
  }

  lemma {:induction false} PreviousIsLast(ls: seq<Logical>, attach: nat, dropped: nat, thread: nat)
    returns (k: nat)
    ensures var previous := Previous(ls, attach, dropped, thread);
      if previous.Some? then
        && k < |ls| && Checked(ls[k], attach, dropped)
        && ls[k].record.thread == thread && ls[k].record.lseq == previous.value
        && forall i :: k < i < |ls| && Checked(ls[i], attach, dropped) ==> ls[i].record.thread != thread
      else forall i :: 0 <= i < |ls| && Checked(ls[i], attach, dropped) ==> ls[i].record.thread != thread
  {
    hide Checked;
    if ls == [] {
      k := 0;
    } else if Checked(ls[|ls| - 1], attach, dropped) && ls[|ls| - 1].record.thread == thread {
      k := |ls| - 1;
    } else {
      k := PreviousIsLast(ls[..|ls| - 1], attach, dropped, thread);
    }
  }

  lemma {:induction false} IncreasingPasses(ls: seq<Logical>, attach: nat, dropped: nat)
    requires Increasing(ls, attach, dropped)
    ensures SequenceFaults(ls, attach, dropped) == []
  {
    hide Checked;
    if ls != [] {
      var init, last := ls[..|ls| - 1], |ls| - 1;
      assert forall i :: 0 <= i < last ==> init[i] == ls[i];
      IncreasingPasses(init, attach, dropped);
      var k := PreviousIsLast(init, attach, dropped, ls[last].record.thread);
    }
  }

  lemma {:induction false} PassingIncreases(ls: seq<Logical>, attach: nat, dropped: nat)
    requires SequenceFaults(ls, attach, dropped) == []
    ensures Increasing(ls, attach, dropped)
  {
    hide Checked;
    if ls != [] {
      var init := ls[..|ls| - 1];
      assert SequenceFaults(init, attach, dropped) == [];
      PassingIncreases(init, attach, dropped);
      var k := PreviousIsLast(init, attach, dropped, ls[|ls| - 1].record.thread);
      LastIncreases(ls, attach, dropped, k);
    }
  }

  /** The check finds nothing if and only if every thread's sequence numbers strictly increase. */
  lemma SequenceCheckExact(ls: seq<Logical>, attach: nat, dropped: nat)
    ensures SequenceFaults(ls, attach, dropped) == [] <==> Increasing(ls, attach, dropped)
  {
    if SequenceFaults(ls, attach, dropped) == [] {
      PassingIncreases(ls, attach, dropped);
    }
    if Increasing(ls, attach, dropped) {
      IncreasingPasses(ls, attach, dropped);
    }
  }

  lemma LastIncreases(ls: seq<Logical>, attach: nat, dropped: nat, k: nat)
    requires ls != [] && Increasing(ls[..|ls| - 1], attach, dropped)
    requires var init, last := ls[..|ls| - 1], ls[|ls| - 1];
      var previous := Previous(init, attach, dropped, last.record.thread);
      && (Checked(last, attach, dropped) && previous.Some? ==> previous.value < last.record.lseq)
      && if previous.Some? then
           && k < |init| && Checked(init[k], attach, dropped) && init[k].record.thread == last.record.thread
           && init[k].record.lseq == previous.value
           && forall i :: k < i < |init| && Checked(init[i], attach, dropped) ==>
             init[i].record.thread != last.record.thread
         else forall i :: 0 <= i < |init| && Checked(init[i], attach, dropped) ==>
           init[i].record.thread != last.record.thread
    ensures Increasing(ls, attach, dropped)
  {
    hide Checked, Previous;
    var init, last := ls[..|ls| - 1], |ls| - 1;
    forall i, j | 0 <= i < j < |ls| && Checked(ls[i], attach, dropped) && Checked(ls[j], attach, dropped)
      && ls[i].record.thread == ls[j].record.thread
      ensures ls[i].record.lseq < ls[j].record.lseq
    {
      assert init[i] == ls[i];
      if j < last {
        assert init[j] == ls[j];
      } else if i < k {
        assert init[i].record.lseq < init[k].record.lseq;
      }
    }
  }
}
