/** What equal comparison signatures say of two captures (nv2a_capture.py: normalize_control_word,
    comparison_events). */
module PusherEquality {
  import opened Pusher
  import opened PusherRelocation

  // ---- Words as numbers ----

  function Value(w: Word): (v: nat)
    ensures v < 0x1_0000_0000
  {
    w as int
  }

  function Quarter(w: Word): Word { w >> 2 }

  predicate Between(w: Word) { 0x2000_0000 <= w < 0x4000_0000 }

  function LowBits(w: Word): (r: nat)
    ensures r < 4
  {
    if w & 3 == 0 then 0 else if w & 3 == 1 then 1 else if w & 3 == 2 then 2 else 3
  }

  /** A word by its quarter and its two low bits. */
  function Quad(q: Word, low: nat): Word {
    if low == 0 then q << 2 else if low == 1 then (q << 2) | 1 else if low == 2 then (q << 2) | 2 else (q << 2) | 3
  }

  predicate Small(w: Word) { w < 0x4000_0000 }

  lemma QuarterBack(w: Word)
    ensures Small(Quarter(w)) && w == Quad(Quarter(w), LowBits(w))
  {
  }

  lemma FourTimes(w: Word)
    requires w < 0x4000_0000
    ensures Value(w << 2) == 4 * Value(w)
    ensures Value((w << 2) | 1) == 4 * Value(w) + 1
    ensures Value((w << 2) | 2) == 4 * Value(w) + 2
    ensures Value((w << 2) | 3) == 4 * Value(w) + 3
  {
  }

  lemma QuadValue(q: Word, low: nat)
    requires Small(q) && low < 4
    ensures Value(Quad(q, low)) == 4 * Value(q) + low
  {
    hide Value;
    FourTimes(q);
  }

  lemma FourMod(v: nat, low: nat)
    requires low < 4
    ensures (4 * v + low) % 4 == low
  {
  }

  lemma ValueLow(w: Word)
    ensures Value(w) % 4 == LowBits(w)
  {
    hide Value, Quarter, LowBits, Quad, Small;
    QuarterBack(w);
    QuadValue(Quarter(w), LowBits(w));
    FourMod(Value(Quarter(w)), LowBits(w));
  }

  lemma EightTimes(w: Word)
    requires w < 0x2000_0000
    ensures Value(w << 3) == 8 * Value(w)
  {
  }

  lemma ValueAtLeast(w: Word)
    ensures w >= 0x2000_0000 ==> Value(w) >= 0x2000_0000
    ensures w >= 0x4000_0000 ==> Value(w) >= 0x4000_0000
  {
  }

  lemma PlainValue(w: Word)
    ensures Value(w) == w as int
  {
  }

  lemma SameValue(v: Word, w: Word)
    requires Value(v) == Value(w)
    ensures v == w
  {
    assert (v as int) as bv32 == v && (w as int) as bv32 == w;
  }

  // ---- The kind of a word, by its value ----

  predicate ValueJump29(x: int) { 0x2000_0000 <= x < 0x4000_0000 && x % 4 == 0 }

  lemma KindBits(w: Word)
    ensures IsJump29(w) <==> Between(w) && LowBits(w) == 0
    ensures IsJump(w) <==> LowBits(w) == 1
    ensures IsCall(w) <==> LowBits(w) == 2
  {
  }

  lemma KindValue(w: Word)
    ensures IsJump29(w) <==> ValueJump29(Value(w))
    ensures IsJump(w) <==> Value(w) % 4 == 1
    ensures IsCall(w) <==> Value(w) % 4 == 2
  {
    hide Value, LowBits, IsJump29, IsJump, IsCall, Between;
    KindBits(w);
    ValueLow(w);
    BetweenValue(w);
  }

  lemma BetweenValue(w: Word)
    ensures Between(w) <==> 0x2000_0000 <= Value(w) < 0x4000_0000
  {
    hide Value;
    ValueAtLeast(w);
    if w < 0x2000_0000 {
      EightTimes(w);
    } else if w < 0x4000_0000 {
      FourTimes(w);
    }
  }

  /** The normalized word shows the kind of the word, and the word itself if it holds no target. */
  lemma NormalizedKind(w: Word, base: Address)
    ensures var x := NormalizeControlWord(w, true, base, false);
      && (IsJump29(w) <==> ValueJump29(x)) && (IsJump(w) <==> x % 4 == 1) && (IsCall(w) <==> x % 4 == 2)
      && (!IsJump29(w) && !IsJump(w) && !IsCall(w) ==> x == Value(w))
  {
    hide IsJump29, IsJump, IsCall, Target, Target29, NormalizeRunAddress;
    KindValue(w);
    OneKind(w);
    if IsJump29(w) {
      AlignedValue(NormalizeRunAddress(Target29(w), true, base) % 0x2000_0000);
    } else if IsJump(w) || IsCall(w) {
      AlignedValue(NormalizeRunAddress(Target(w), true, base));
    } else {
      PlainValue(w);
    }
  }

  lemma AlignedValue(a: Address)
    ensures Align(a) % 4 == 0 && Align(a) <= a
    ensures (Align(a) + 1) % 4 == 1 && (Align(a) + 2) % 4 == 2
    ensures (0x2000_0000 + Align(a)) % 4 == 0
  {
  }

  // ---- Equal offsets ----

  /** Addresses with equal offsets, neither of them zero, are moved with their bases. */
  lemma EqualOffset(v: Address, w: Address, base: Address, base': Address)
    requires v != 0 && w != 0 && NormalizeRunAddress(v, true, base) == NormalizeRunAddress(w, true, base')
    ensures w == Moved(v, Offset(base', base))
  {
    hide Moved, Offset;
    MoveOffset(v, base, base');
    OffsetDifference(w, base');
    OffsetDifference(Moved(v, Offset(base', base)), base');
  }

  lemma EqualMoves(v: Address, w: Address, base: Address, base': Address)
    requires (v == 0 <==> w == 0) && NormalizeRunAddress(v, true, base) == NormalizeRunAddress(w, true, base')
    ensures Moves(v, w, Offset(base', base))
  {
    hide Moved, Offset, NormalizeRunAddress;
    if v != 0 {
      EqualOffset(v, w, base, base');
    }
  }

  /** Of two aligned addresses, offsets that agree in all dwords agree. */
  lemma AlignedOffsets(u: Address, w: Address, base: Address)
    requires u % 4 == 0 && w % 4 == 0 && Align(Offset(u, base)) == Align(Offset(w, base))
    ensures u == w
  {
    hide Offset;
    OffsetDifference(u, base);
    OffsetDifference(w, base);
  }

  lemma OffsetMod29(u: Address, base: Address)
    requires u < 0x2000_0000
    ensures Offset(u, base) % 0x2000_0000 ==
      var b := base % 0x2000_0000; if u >= b then u - b else u - b + 0x2000_0000
  {
    hide Offset;
    OffsetDifference(u, base);
    var q, b := base / 0x2000_0000, base % 0x2000_0000;
    assert base == 0x2000_0000 * q + b;
    if u >= base {
      assert q == 0;
    } else {
      var x := u - base + 0x1_0000_0000;
      if u >= b {
        assert x == 0x2000_0000 * (8 - q) + (u - b);
      } else {
        assert x == 0x2000_0000 * (7 - q) + (u - b + 0x2000_0000);
      }
    }
  }

  lemma AlignedOffsets29(u: Address, w: Address, base: Address)
    requires u % 4 == 0 && w % 4 == 0 && u < 0x2000_0000 && w < 0x2000_0000
    requires Align(Offset(u, base) % 0x2000_0000) == Align(Offset(w, base) % 0x2000_0000)
    ensures u == w
  {
    hide Offset;
    OffsetMod29(u, base);
    OffsetMod29(w, base);
  }

  lemma TargetShape(w: Word)
    ensures Target(w) % 4 == 0 && Target29(w) % 4 == 0 && Target29(w) < 0x2000_0000
  {
  }

  // ---- Equal control words ----

  /** A 29-bit jump whose moved target does not leave its 29 bits. */
  ghost predicate StaysInRange(word: Word, d: Address) {
    IsJump29(word) ==> Moved(Target29(word), d) < 0x2000_0000
  }

  lemma EqualControl(word: Word, word': Word, base: Address, base': Address)
    requires NormalizeControlWord(word, true, base, false) == NormalizeControlWord(word', true, base', false)
    requires NonzeroTarget(word) && NonzeroTarget(word') && Multiple4(Offset(base', base))
    requires StaysInRange(word, Offset(base', base))
    ensures MovesControl(word, word', Offset(base', base))
  {
    hide IsJump29, IsJump, IsCall, Target, Target29, Moved, Offset, Align, ValueJump29, Value, Multiple4;
    var d := Offset(base', base);
    NormalizedKind(word, base);
    NormalizedKind(word', base');
    TargetShape(word);
    TargetShape(word');
    OneKind(word);
    OneKind(word');
    if IsJump29(word) {
      LowBitsStay(Target29(word), d);
      MoveOffset(Target29(word), base, base');
      AlignedOffsets29(Moved(Target29(word), d), Target29(word'), base');
    } else if IsJump(word) || IsCall(word) {
      LowBitsStay(Target(word), d);
      MoveOffset(Target(word), base, base');
      AlignedOffsets(Moved(Target(word), d), Target(word'), base');
    } else {
      SameValue(word, word');
    }
  }

  lemma LowBitsStay(v: Address, d: Address)
    requires Multiple4(d) && v % 4 == 0
    ensures Moved(v, d) % 4 == 0
  {
    hide Multiple4, Moved;
    PusherRelocation.LowBits(v, d);
  }

  // ---- Captures with equal signatures ----

  /** The state word after a control word. */
  function ControlState(state: Word, word: Word): Word {
    if IsJump29(word) || IsJump(word) || IsCall(word) || IsReturn(word) || !IsHeader(word) then state
    else AfterHeader(state, word)
  }

  lemma StateAfterPush(s: State, frame: nat, address: Address, word: Word)
    ensures var t := PushWord(s, frame, address, word);
      t.active == s.active
      && t.state == if !s.active then s.state else if Count(s.state) != 0 then AfterData(s.state)
                    else ControlState(s.state, word)
  {
    hide IsJump29, IsJump, IsCall, IsReturn, IsHeader, Target29, Target, InSubroutine, Return, Align, AfterHeader, Next,
         Count, AfterData;
  }

  /** Two comparisons read the next record alike. */
  ghost predicate InStep(c: Comparison, c': Comparison) {
    c'.hostMode == c.hostMode && c'.replay.state == c.replay.state && c'.replay.active == c.replay.active
  }

  /** Records with equal signatures keep two comparisons in step, whatever their addresses. */
  lemma StepsAlike(c: Comparison, c': Comparison, e: Event, e': Event)
    requires InStep(c, c') && SignatureIn(c, e) == SignatureIn(c', e')
    ensures InStep(Advance(c, e), Advance(c', e'))
  {
    hide NormalizeControlWord, NormalizeRunAddress, PushWord, Count, AfterData, ControlState;
    if e.Fetch? {
      StateAfterPush(c.replay, e.frame, e.address, e.word);
      StateAfterPush(c'.replay, e'.frame, e'.address, e'.word);
      RawWord(e.word, c.hostMode, c.base, Count(c.replay.state) != 0);
      RawWord(e'.word, c.hostMode, c'.base, Count(c.replay.state) != 0);
      if !c.hostMode || Count(c.replay.state) != 0 {
        SameValue(e.word, e'.word);
      } else {
        SameControlState(c.replay.state, e.word, e'.word, c.base, c'.base);
      }
    }
  }

  lemma RawWord(word: Word, hostMode: bool, base: Address, methodData: bool)
    ensures !hostMode || methodData ==> NormalizeControlWord(word, hostMode, base, methodData) == Value(word)
  {
    hide IsJump29, IsJump, IsCall, Target29, Target;
  }

  lemma SameControlState(state: Word, word: Word, word': Word, base: Address, base': Address)
    requires NormalizeControlWord(word, true, base, false) == NormalizeControlWord(word', true, base', false)
    ensures ControlState(state, word) == ControlState(state, word')
  {
    hide IsJump29, IsJump, IsCall, IsReturn, IsHeader, AfterHeader, NormalizeControlWord, ValueJump29, Value;
    NormalizedKind(word, base);
    NormalizedKind(word', base');
    if !IsJump29(word) && !IsJump(word) && !IsCall(word) {
      SameValue(word, word');
    }
  }

  /** The records hold no address a comparison mistakes: zero goes with zero, fetches and targets
      are not zero, runs move by multiples of 4 and 29-bit jumps within their 29 bits. */
  ghost predicate UnconfusedEvent(hostMode: bool, methodData: bool, d: Address, e: Event, e': Event) {
    match e
    case Run(f) =>
      e'.Run? && f.hostMode ==>
        var f' := e'.fields;
        && Multiple4(Offset(f'.base, f.base)) && f.get != 0 && f'.get != 0
        && (f.put == 0 <==> f'.put == 0) && (f.subroutine == 0 <==> f'.subroutine == 0)
    case Fetch(_, address, word) =>
      e'.Fetch? && hostMode ==>
        && address != 0 && e'.address != 0
        && (!methodData ==> NonzeroTarget(word) && NonzeroTarget(e'.word) && StaysInRange(word, d))
    case Recorded(_) => true
    case Other(_) => true
  }

  ghost predicate Unconfused(events: seq<Event>, moved: seq<Event>)
    requires |moved| == |events|
  {
    forall n :: 0 <= n < |events| ==>
      var c := After(events, n);
      UnconfusedEvent(c.hostMode, Count(c.replay.state) != 0, Distance(c, After(moved, n)), events[n], moved[n])
  }

  lemma MovesUnconfused(hostMode: bool, methodData: bool, d: Address, e: Event, e': Event)
    requires MovesEvent(hostMode, methodData, d, e, e')
    ensures UnconfusedEvent(hostMode, methodData, d, e, e')
  {
    hide Multiple4, Moved, Offset, NonzeroTarget, IsJump29, IsJump, IsCall, Target, Target29;
    if e.Fetch? {
      TargetShape(e'.word);
    }
  }

  lemma EqualRun(f: RunFields, f': RunFields, c: Comparison, c': Comparison)
    requires SignatureIn(c, Run(f)) == SignatureIn(c', Run(f'))
    requires UnconfusedEvent(c.hostMode, Count(c.replay.state) != 0, Distance(c, c'), Run(f), Run(f'))
    ensures MovesRun(f, f')
  {
    hide Multiple4, Moved, Moves, Offset, NormalizeRunAddress;
    if f.hostMode {
      EqualMoves(f.get, f'.get, f.base, f'.base);
      EqualMoves(f.put, f'.put, f.base, f'.base);
      EqualMoves(f.subroutine, f'.subroutine, f.base, f'.base);
    } else {
      PlainRun(f, f.base);
      PlainRun(f', f'.base);
    }
  }

  /** Unconfused records with equal signatures are moved. */
  lemma EqualMovesEvent(c: Comparison, c': Comparison, e: Event, e': Event)
    requires InStep(c, c') && SignatureIn(c, e) == SignatureIn(c', e')
    requires c.hostMode ==> Multiple4(Distance(c, c'))
    requires UnconfusedEvent(c.hostMode, Count(c.replay.state) != 0, Distance(c, c'), e, e')
    ensures MovesEvent(c.hostMode, Count(c.replay.state) != 0, Distance(c, c'), e, e')
  {
    hide NormalizeControlWord, NormalizeRunAddress, MovesRun, MovesControl, NonzeroTarget, Multiple4, Moves, Count;
    hide Offset;
    match e
    case Run(f) =>
      EqualRun(f, e'.fields, c, c');
    case Fetch(frame, address, word) =>
      RawWord(word, c.hostMode, c.base, Count(c.replay.state) != 0);
      RawWord(e'.word, c.hostMode, c'.base, Count(c.replay.state) != 0);
      if !c.hostMode || Count(c.replay.state) != 0 {
        SameValue(word, e'.word);
      }
      if c.hostMode {
        EqualMoves(address, e'.address, c.base, c'.base);
        if Count(c.replay.state) == 0 {
          EqualControl(word, e'.word, c.base, c'.base);
        }
      } else {
        PlainSignature(address, word, c.base, false);
        PlainSignature(e'.address, word, c'.base, false);
      }
    case Recorded(_) =>
    case Other(_) =>
  }

  lemma {:induction false} SignatureAt(events: seq<Event>, n: nat, k: nat)
    requires k < n <= |events|
    ensures |Signatures(events, n)| == n && Signatures(events, n)[k] == SignatureIn(After(events, k), events[k])
  {
    hide SignatureIn, After;
    SignatureCount(events, n);
    SignatureCount(events, n - 1);
    if k < n - 1 {
      SignatureAt(events, n - 1, k);
    }
  }

  lemma {:induction false} SignatureCount(events: seq<Event>, n: nat)
    requires n <= |events|
    ensures |Signatures(events, n)| == n
  {
    hide SignatureIn, After;
    if n > 0 {
      SignatureCount(events, n - 1);
    }
  }

  /** Captures with equal signatures are read alike at every record. */
  lemma {:induction false} EqualInStep(events: seq<Event>, others: seq<Event>, n: nat)
    requires |others| == |events| && Signatures(others, |others|) == Signatures(events, |events|) && n <= |events|
    ensures InStep(After(events, n), After(others, n))
  {
    hide InStep, Advance, SignatureIn, Signatures;
    if n == 0 {
      StartInStep();
    } else {
      EqualInStep(events, others, n - 1);
      SignatureAt(events, |events|, n - 1);
      SignatureAt(others, |events|, n - 1);
      StepsAlike(After(events, n - 1), After(others, n - 1), events[n - 1], others[n - 1]);
    }
  }

  lemma StartInStep()
    ensures InStep(START, START)
  {
  }

  lemma MovedDistance(c: Comparison, c': Comparison, e: Event, e': Event)
    requires MovesEvent(c.hostMode, Count(c.replay.state) != 0, Distance(c, c'), e, e')
    requires c.hostMode ==> Multiple4(Distance(c, c'))
    requires InStep(c, c')
    ensures Advance(c, e).hostMode ==> Multiple4(Distance(Advance(c, e), Advance(c', e')))
  {
    hide Multiple4, Moves, Offset, PushWord, MovesControl, NonzeroTarget, Count;
  }

  lemma {:induction false} EqualRelocates(events: seq<Event>, others: seq<Event>, n: nat)
    requires |others| == |events| && Signatures(others, |others|) == Signatures(events, |events|)
    requires Unconfused(events, others) && n <= |events|
    ensures var c, c' := After(events, n), After(others, n); c.hostMode ==> Multiple4(Distance(c, c'))
    ensures n < |events| ==>
      var c, c' := After(events, n), After(others, n);
      MovesEvent(c.hostMode, Count(c.replay.state) != 0, Distance(c, c'), events[n], others[n])
  {
    hide InStep, Advance, SignatureIn, Signatures, Distance, MovesEvent, UnconfusedEvent, Multiple4, Count;
    if n > 0 {
      EqualRelocates(events, others, n - 1);
      EqualInStep(events, others, n - 1);
      MovedDistance(After(events, n - 1), After(others, n - 1), events[n - 1], others[n - 1]);
    }
    if n < |events| {
      EqualInStep(events, others, n);
      SignatureAt(events, |events|, n);
      SignatureAt(others, |events|, n);
      EqualMovesEvent(After(events, n), After(others, n), events[n], others[n]);
    }
  }

  /** Two captures are relocations of each other if and only if they compare equal and hold no
      addresses the comparison mistakes. */
  lemma RelocatedExactly(events: seq<Event>, others: seq<Event>)
    requires |others| == |events|
    ensures Relocated(events, others)
      <==> Signatures(others, |others|) == Signatures(events, |events|) && Unconfused(events, others)
  {
    hide Signatures, After, MovesEvent, UnconfusedEvent, Distance, Count;
    if Relocated(events, others) {
      RelocatedCapturesCompareEqual(events, others);
      forall n | 0 <= n < |events|
        ensures var c := After(events, n);
          UnconfusedEvent(c.hostMode, Count(c.replay.state) != 0, Distance(c, After(others, n)), events[n], others[n])
      {
        var c := After(events, n);
        MovesUnconfused(c.hostMode, Count(c.replay.state) != 0, Distance(c, After(others, n)), events[n], others[n]);
      }
    } else if Signatures(others, |others|) == Signatures(events, |events|) && Unconfused(events, others) {
      forall n | 0 <= n < |events|
        ensures var c := After(events, n);
          MovesEvent(c.hostMode, Count(c.replay.state) != 0, Distance(c, After(others, n)), events[n], others[n])
      {
        EqualRelocates(events, others, n);
      }
    }
  }
}
