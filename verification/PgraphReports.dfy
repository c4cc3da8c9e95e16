/** What the PGRAPH methods report, over every run and told from the calls alone
    (nv2a_capture.py: PgraphReplayState.apply_method, checkpoint). */
module PgraphReports {
  import opened Wrappers
  import opened Pgraph
  import opened PgraphProofs

  // ---- Calls ----

  /** The numbers the methods have. */
  lemma MethodNumbers()
    ensures KELVIN == 0x97 && FLIP_STALL == 0x130 && CLEAR_SURFACE == 0x1D94 && DRAW_ARRAYS == 0x1810
    ensures BEGIN_END == 0x17FC && ARRAY_ELEMENT16 == 0x1800 && ARRAY_ELEMENT32 == 0x1808 && INLINE_ARRAY == 0x1818
    ensures TRANSFORM_PROGRAM == 0xB00 && TRANSFORM_CONSTANT == 0xB80 && EXECUTION_MODE == 0x1E94
    ensures PROGRAM_LOAD == 0x1E9C && PROGRAM_START == 0x1EA0 && CONSTANT_LOAD == 0x1EA4
    ensures VERTEX4F == 0x1518 && VERTEX_DATA2F == 0x1880 && VERTEX_DATA4UB == 0x1940 && VERTEX_DATA4F == 0x1A00
    ensures COMPOSITE_MATRIX == 0x680 && VIEWPORT_OFFSET == 0xA20 && VIEWPORT_SCALE == 0xAF0
    ensures REGISTERS == 2048 && PROGRAM_WORDS == 544 && CONSTANT_WORDS == 768
    ensures ELEMENT_CAPACITY == 4096 && INLINE_CAPACITY == 65536 && VERTEX_WORDS == 64
  {
  }

  /** The method a call is for: its number without the two low bits, modulo 0x2000. */
  lemma MethodExactly(e: Event)
    requires e.Method?
    ensures MethodOf(e) == e.call.method_ % 0x2000 / 4 * 4
  {
    MaskedAligned(e.call.method_);
    var m := e.call.method_;
    assert m % 0x2000 - m % 4 == m % 0x2000 / 4 * 4 by {
      assert m == m / 0x2000 * 0x2000 + m % 0x2000;
      Fours(m / 0x2000, m % 0x2000);
    }
  }

  /** The data of a call: between 0x180 and 0x200 the address of an object it names, else as sent. */
  lemma DataExactly(e: Event)
    requires e.Method?
    ensures DataOf(e) ==
      if 0x180 <= e.call.method_ < 0x200 && e.call.data in e.objects then e.objects[e.call.data].0 else e.call.data
  {
  }

  /** The class a call binds: that of the object it names, and Kelvin for an unknown one. */
  lemma ClassExactly(objects: Objects, handle: Word)
    ensures ObjectClass(objects, handle) == if handle in objects then objects[handle].1 else 0x97
  {
  }

  /** A call reaches the Kelvin object when it is not a binding and the last binding of its
      subchannel, if any, was to class 0x97. */
  lemma ReachesExactly(events: seq<Event>, n: nat)
    requires n < |events| && events[n].Method?
    ensures ReachesKelvin(events, n) <==>
      events[n].call.method_ != 0 && (Bound(events, n, events[n].call.subchannel % 8) in {0, 0x97})
  {
    hide Bound;
  }

  /** The registers before any call. */
  lemma RegistersAtStart(r: nat)
    requires r < 2048
    ensures |Start().registers| == 2048
    ensures Start().registers[r] ==
      if 4 * r == 0x33C || 4 * r == 0x364 then 0x207
      else if 4 * r == 0x344 || 4 * r == 0x35C then 1
      else if 4 * r == 0x350 then 0x8006
      else if 4 * r == 0x354 then 0x201
      else if 4 * r == 0x360 || 4 * r == 0x36C then 0xFF
      else if 4 * r == 0x370 || 4 * r == 0x374 || 4 * r == 0x378 then 0x1E00
      else 0
  {
  }

  // ---- Reports ----

  /** The primitive of the last BEGIN, and zero behind an END. */
  function Open(events: seq<Event>, n: nat): Word
    requires n <= |events|
  {
    if n == 0 then 0
    else if ReachesKelvin(events, n - 1) && MethodOf(events[n - 1]) == 0x17FC then DataOf(events[n - 1])
    else Open(events, n - 1)
  }

  lemma {:induction false} OpenFollowed(events: seq<Event>, n: nat)
    requires n <= |events|
    ensures After(events, n).beginOp == Open(events, n)
  {
    hide Step, ReachesKelvin, Store, Reported, MethodOf, DataOf;
    if n > 0 {
      var s, e := After(events, n - 1), events[n - 1];
      OpenFollowed(events, n - 1);
      StepSplits(events, n - 1);
      if ReachesKelvin(events, n - 1) {
        var m, data := MethodOf(e), DataOf(e);
        StoreKeepsClasses(s, m, data);
        ReportKeeps(Store(s, m, data), e.call, m, data);
        if m == 0x17FC {
          BeginOrEndEmptiesBatch(events, n - 1);
          AfterNext(events, n - 1);
        }
      }
    }
  }

  /** The report is of this call, with the open primitive and the state after its stores. */
  ghost predicate ReportOf(events: seq<Event>, n: nat, r: Checkpoint)
    requires n < |events| && events[n].Method?
  {
    var e := events[n];
    && r.method_ == MethodOf(e) && r.data == DataOf(e)
    && r.frame == e.call.frame && r.recordIndex == e.call.recordIndex && r.methodIndex == e.call.methodIndex
    && r.primitive == Open(events, n) && r.state == Store(After(events, n), MethodOf(e), DataOf(e))
  }

  /** What a call reports: a clear, a draw of as many vertices as the top byte of its data says plus
      one, a present, or at END the batch, if anything was sent. */
  ghost predicate Reports(events: seq<Event>, n: nat, r: Option<Checkpoint>)
    requires n < |events|
  {
    if !ReachesKelvin(events, n) then r == None
    else if MethodOf(events[n]) == 0x1D94 then
      r.Some? && r.value.kind == Clear && r.value.count == 0 && r.value.indices == [] && ReportOf(events, n, r.value)
    else if MethodOf(events[n]) == 0x1810 then
      r.Some? && r.value.kind == DrawArrays && r.value.count == DataOf(events[n]) / 0x100_0000 % 256 + 1
      && r.value.indices == [] && ReportOf(events, n, r.value)
    else if MethodOf(events[n]) == 0x130 then
      r.Some? && r.value.kind == Present && r.value.count == 0 && r.value.indices == [] && ReportOf(events, n, r.value)
    else if MethodOf(events[n]) == 0x17FC && DataOf(events[n]) == 0 then
      (r.Some? <==> Pending(events, n) != NOTHING)
      && (r.Some? ==> r.value.kind in {ImmediateBatch, InlineBatch, IndexedBatch} && ReportOf(events, n, r.value))
    else r == None
  }

  lemma StoreKeepsOpen(s: State, m: nat, data: Word)
    ensures Store(s, m, data).beginOp == s.beginOp
  {
  }

  lemma ReportedExactly(s: State, c: Call, m: nat, data: Word)
    ensures var r := Reported(s, c, m, data).1;
      && (r.Some? ==>
            && r.value.method_ == m && (m != 0x17FC ==> r.value.data == data) && r.value.frame == c.frame
            && r.value.recordIndex == c.recordIndex && r.value.methodIndex == c.methodIndex
            && r.value.primitive == s.beginOp && r.value.state == s)
      && (m == 0x1D94 ==> r.Some? && r.value.kind == Clear && r.value.count == 0 && r.value.indices == [])
      && (m == 0x1810 ==>
            r.Some? && r.value.kind == DrawArrays && r.value.count == data / 0x100_0000 % 256 + 1
            && r.value.indices == [])
      && (m == 0x130 ==> r.Some? && r.value.kind == Present && r.value.count == 0 && r.value.indices == [])
      && (m == 0x17FC ==> r.Some? ==>
            r.value.data == data == 0 && r.value.kind in {ImmediateBatch, InlineBatch, IndexedBatch})
      && (r.Some? ==> m in {0x1D94, 0x1810, 0x130, 0x17FC})
  {
  }

  /** Over every run each event reports exactly this: clears, draws and presents at their methods,
      batches at END, and nothing at any other call or record. */
  lemma ReportsExactly(events: seq<Event>, n: nat)
    requires n < |events|
    ensures Reports(events, n, CheckpointOf(events, n))
  {
    hide ReachesKelvin, After, Pending, Step, Store, Reported, MethodOf, DataOf, Open, ReportsBatch;
    StepSplits(events, n);
    if ReachesKelvin(events, n) {
      var s, m, data, c := After(events, n), MethodOf(events[n]), DataOf(events[n]), events[n].call;
      OpenFollowed(events, n);
      StoreKeepsOpen(s, m, data);
      ReportedExactly(Store(s, m, data), c, m, data);
      if m == 0x17FC && data == 0 {
        EndReportsBatch(events, n);
        BatchOrNothing(CheckpointOf(events, n), Pending(events, n));
      }
    }
  }

  lemma BatchOrNothing(r: Option<Checkpoint>, sent: Sent)
    requires ReportsBatch(r, sent)
    ensures r.Some? <==> sent != NOTHING
  {
  }
}
