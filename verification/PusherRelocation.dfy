/** Relocation-insensitive comparison of captures (nv2a_capture.py: normalize_run_address,
    normalize_control_word, comparison_events) and the simulation that justifies it. */
module PusherRelocation {
  import opened Pusher

  /** Records as far as a comparison reads them. `Other` stands for a record whose signature
      holds no address of the push buffer. */
  datatype Event =
    | Run(fields: RunFields)
    | Fetch(frame: nat, address: Address, word: Word)
    | Recorded(call: Method)
    | Other(content: seq<nat>)

  datatype Signature =
    | RunSignature(frame: nat, hostMode: bool, get: Address, put: Address, state: Word, dcount: Word,
                   subroutine: Address, limit: Address)
    | FetchSignature(frame: nat, address: Address, word: int)
    | RecordedSignature(call: Method)
    | OtherSignature(content: seq<nat>)

  /** What a comparison carries from record to record. */
  datatype Comparison = Comparison(hostMode: bool, base: Address, replay: State)

  function Offset(value: Address, base: Address): Address { (value - base) % 0x1_0000_0000 }

  function NormalizeRunAddress(value: Address, hostMode: bool, base: Address): Address {
    if !hostMode || value == 0 then value else Offset(value, base)
  }

  /** The value of the normalized word: the opcode bits with the offset of the target. */
  function NormalizeControlWord(word: Word, hostMode: bool, base: Address, methodData: bool): int {
    if !hostMode || methodData then word as int
    else if IsJump29(word) then 0x2000_0000 + Align(NormalizeRunAddress(Target29(word), true, base) % 0x2000_0000)
    else if IsJump(word) then Align(NormalizeRunAddress(Target(word), true, base)) + 1
    else if IsCall(word) then Align(NormalizeRunAddress(Target(word), true, base)) + 2
    else word as int
  }

  function SignatureOf(hostMode: bool, base: Address, state: Word, e: Event): Signature {
    match e
    case Run(f) =>
      RunSignature(f.frame, f.hostMode, NormalizeRunAddress(f.get, f.hostMode, f.base),
                   NormalizeRunAddress(f.put, f.hostMode, f.base), f.state, f.dcount,
                   NormalizeRunAddress(f.subroutine, f.hostMode, f.base), f.limit)
    case Fetch(frame, address, word) =>
      FetchSignature(frame, NormalizeRunAddress(address, hostMode, base),
                     NormalizeControlWord(word, hostMode, base, Count(state) != 0))
    case Recorded(call) => RecordedSignature(call)
    case Other(content) => OtherSignature(content)
  }

  function SignatureIn(c: Comparison, e: Event): Signature {
    SignatureOf(c.hostMode, c.base, c.replay.state, e)
  }

  function Advance(c: Comparison, e: Event): Comparison {
    match e
    case Run(f) => Comparison(f.hostMode, f.base, BeginRun(c.replay, f))
    case Fetch(frame, address, word) => c.(replay := PushWord(c.replay, frame, address, word))
    case Recorded(_) => c
    case Other(_) => c
  }

  const START := Comparison(false, 0, State(0, 0, 0, 0, false, 0, [], [], []))

  /** The comparison state before record `n`. */
  function After(events: seq<Event>, n: nat): Comparison
    requires n <= |events|
  {
    if n == 0 then START else Advance(After(events, n - 1), events[n - 1])
  }

  function Signatures(events: seq<Event>, n: nat): seq<Signature>
    requires n <= |events|
  {
    if n == 0 then []
    else Signatures(events, n - 1) + [SignatureIn(After(events, n - 1), events[n - 1])]
  }

  function RecordedCalls(events: seq<Event>, n: nat): seq<Method>
    requires n <= |events|
  {
    if n == 0 then []
    else RecordedCalls(events, n - 1) + if events[n - 1].Recorded? then [events[n - 1].call] else []
  }

  /** The internal replay of a capture agrees with what it recorded. */
  predicate Accepted(events: seq<Event>) {
    var replay := After(events, |events|).replay;
    replay.addressErrors == [] && replay.packetErrors == [] && replay.methods == RecordedCalls(events, |events|)
  }

  method ComparisonEvents(events: seq<Event>) returns (signatures: seq<Signature>)
    ensures signatures == Signatures(events, |events|)
  {
    hide PushWord, SignatureOf, BeginRun;
    signatures := [];
    var hostMode := false;
    var base: Address := 0;
    var replay := new PusherReplay();
    for i := 0 to |events|
      invariant fresh(replay)
      invariant signatures == Signatures(events, i)
      invariant Comparison(hostMode, base, replay.View()) == After(events, i)
    {
      signatures := signatures + [SignatureOf(hostMode, base, replay.state, events[i])];
      match events[i] {
        case Run(fields) =>
          hostMode, base := fields.hostMode, fields.base;
          replay.Begin(fields);
        case Fetch(frame, address, word) =>
          replay.Push(frame, address, word);
        case Recorded(_) =>
        case Other(_) =>
      }
    }
  }

  // ---- Relocation ----

  /** `v` moved by `d`; a wrapped sum. */
  ghost function Moved(v: Address, d: Address): Address { (v + d) % 0x1_0000_0000 }

  ghost predicate Multiple4(d: Address) { d % 4 == 0 }

  /** `w` is `v` moved by `d`; zero stands for no address and stays. */
  ghost predicate Moves(v: Address, w: Address, d: Address) {
    if v == 0 then w == 0 else w == Moved(v, d) && w != 0
  }

  /** A control word whose target moves by `d`. The new word is of the same kind, so a 29-bit
      jump keeps its target within 29 bits. */
  ghost predicate MovesControl(word: Word, word': Word, d: Address) {
    if IsJump29(word) then IsJump29(word') && Target29(word') == Moved(Target29(word), d)
    else if IsJump(word) then IsJump(word') && Target(word') == Moved(Target(word), d)
    else if IsCall(word) then IsCall(word') && Target(word') == Moved(Target(word), d)
    else word' == word
  }

  /** A target of zero would be read as no address. */
  ghost predicate NonzeroTarget(word: Word) {
    if IsJump29(word) then Target29(word) != 0 else IsJump(word) || IsCall(word) ==> Target(word) != 0
  }

  /** A host-mode run may move by a multiple of 4; a guest-memory run stays as it is, but for the
      base it does not use. */
  ghost predicate MovesRun(f: RunFields, f': RunFields) {
    var d := Offset(f'.base, f.base);
    if !f.hostMode then f' == f.(base := f'.base)
    else
      && f' == f.(base := f'.base, get := f'.get, put := f'.put, subroutine := f'.subroutine)
      && Multiple4(d) && f.get != 0 && Moves(f.get, f'.get, d) && Moves(f.put, f'.put, d)
      && Moves(f.subroutine, f'.subroutine, d)
  }

  ghost predicate MovesEvent(hostMode: bool, methodData: bool, d: Address, e: Event, e': Event) {
    match e
    case Run(f) => e'.Run? && MovesRun(f, e'.fields)
    case Fetch(frame, address, word) =>
      if !hostMode then e' == e
      else
        && e'.Fetch? && e'.frame == frame && address != 0 && Moves(address, e'.address, d)
        && (if methodData then e'.word == word
            else MovesControl(word, e'.word, d) && NonzeroTarget(word) && NonzeroTarget(e'.word))
    case Recorded(_) => e' == e
    case Other(_) => e' == e
  }

  /** How far the run in progress has moved. */
  ghost function Distance(c: Comparison, c': Comparison): Address {
    if c.hostMode then Offset(c'.base, c.base) else 0
  }

  /** `moved` is `events` with every host-mode run moved by its own distance. */
  ghost predicate Relocated(events: seq<Event>, moved: seq<Event>) {
    && |moved| == |events|
    && forall n :: 0 <= n < |events| ==>
      var c := After(events, n);
      MovesEvent(c.hostMode, Count(c.replay.state) != 0, Distance(c, After(moved, n)), events[n], moved[n])
  }

  // ---- Simulation ----

  /** The pusher states agree up to the distance of the run. */
  ghost predicate SimilarState(s: State, s': State, d: Address) {
    && s'.state == s.state && s'.active == s.active && s'.frame == s.frame
    && s'.methods == s.methods && s'.packetErrors == s.packetErrors
    && |s'.addressErrors| == |s.addressErrors|
    && s'.get == Moved(s.get, d) && Moves(s.subroutine, s'.subroutine, d)
  }

  ghost predicate Similar(c: Comparison, c': Comparison) {
    var d := Distance(c, c');
    && c'.hostMode == c.hostMode && Multiple4(d)
    && SimilarState(c.replay, c'.replay, d)
  }

  lemma MovedSum(v: Address, d: Address)
    ensures Moved(v, d) == if v + d < 0x1_0000_0000 then v + d else v + d - 0x1_0000_0000
  {
  }

  lemma NextSum(v: Address)
    ensures Next(v) == if v + 4 < 0x1_0000_0000 then v + 4 else v + 4 - 0x1_0000_0000
  {
  }

  lemma OffsetDifference(v: Address, base: Address)
    ensures Offset(v, base) == if v >= base then v - base else v - base + 0x1_0000_0000
  {
  }

  lemma MoveNext(v: Address, d: Address)
    ensures Next(Moved(v, d)) == Moved(Next(v), d)
  {
    hide Next, Moved;
    MovedSum(v, d);
    NextSum(v);
    NextSum(Moved(v, d));
    MovedSum(Next(v), d);
  }

  lemma MoveNothing(v: Address)
    ensures Moved(v, 0) == v && Moves(v, v, 0) && Multiple4(0)
  {
  }

  lemma MoveInjective(v: Address, w: Address, d: Address)
    ensures Moved(v, d) == Moved(w, d) <==> v == w
  {
    hide Moved;
    MovedSum(v, d);
    MovedSum(w, d);
  }

  /** An address and its moved image have the same offset from their bases. */
  lemma MoveOffset(v: Address, base: Address, base': Address)
    ensures Offset(Moved(v, Offset(base', base)), base') == Offset(v, base)
  {
    hide Moved, Offset;
    var d := Offset(base', base);
    OffsetDifference(base', base);
    MovedSum(v, d);
    OffsetDifference(v, base);
    OffsetDifference(Moved(v, d), base');
  }

  /** Moving by a multiple of 4 keeps the low bits. */
  lemma LowBits(v: Address, d: Address)
    requires Multiple4(d)
    ensures Moved(v, d) % 4 == v % 4 && Moved(v, d) % 2 == v % 2
  {
    hide Moved;
    MovedSum(v, d);
    assert d == 4 * (d / 4);
    if v + d < 0x1_0000_0000 {
      AddFours(v, d / 4);
    } else {
      AddFours(v, d / 4 - 0x4000_0000);
    }
  }

  lemma AddFours(v: int, fours: int)
    ensures (v + 4 * fours) % 4 == v % 4 && (v + 4 * fours) % 2 == v % 2
  {
    assert (v + 4 * fours) / 4 == v / 4 + fours;
    assert (v + 4 * fours) / 2 == v / 2 + 2 * fours;
  }

  /** The three kinds of control word that hold a target exclude each other. */
  lemma OneKind(word: Word)
    ensures IsJump(word) ==> !IsJump29(word)
    ensures IsCall(word) ==> !IsJump29(word) && !IsJump(word)
  {
  }

  lemma AlignMoves(v: Address, d: Address)
    requires Multiple4(d)
    ensures Align(Moved(v, d)) == Moved(Align(v), d)
  {
    hide Moved, Multiple4;
    LowBits(v, d);
    MovedSum(v, d);
    MovedSum(Align(v), d);
    AlignStays(d);
    AlignBelow(v + d);
  }

  lemma Aligns(v: Address)
    ensures Align(v) % 4 == 0
  {
  }

  lemma AlignStays(d: Address)
    requires Multiple4(d)
    ensures d % 4 == 0
  {
  }

  lemma AlignBelow(sum: nat)
    ensures sum >= 0x1_0000_0000 ==> sum - sum % 4 >= 0x1_0000_0000
  {
  }

  lemma ReturnMoves(get: Address, d: Address)
    requires Multiple4(d)
    ensures Moves(Return(get), Return(Moved(get, d)), d)
  {
    hide Moved, Multiple4, Align;
    AlignMoves(get, d);
    Aligns(get);
    AlignedStep(Align(get), d);
  }

  lemma AlignedStep(v: Address, d: Address)
    requires Multiple4(d) && v % 4 == 0
    ensures v + 1 < 0x1_0000_0000 && Moved(v, d) + 1 == Moved(v + 1, d)
  {
    hide Moved;
    MovedSum(v, d);
    MovedSum(v + 1, d);
  }

  /** Moving keeps the in-subroutine bit, and a return comes back to the moved place. */
  lemma SubroutineMoves(v: Address, w: Address, d: Address)
    requires Multiple4(d) && Moves(v, w, d)
    ensures InSubroutine(w) == InSubroutine(v)
    ensures InSubroutine(v) ==> Align(w) == Moved(Align(v), d)
  {
    hide Moved, Multiple4;
    LowBits(v, d);
    AlignMoves(v, d);
  }

  lemma RunAddressMoves(v: Address, w: Address, hostMode: bool, base: Address, base': Address)
    requires if hostMode then Moves(v, w, Offset(base', base)) else w == v
    ensures NormalizeRunAddress(w, hostMode, base') == NormalizeRunAddress(v, hostMode, base)
  {
    hide Offset, Moved;
    MoveOffset(v, base, base');
  }

  /** A moved control word is of the same kind. */
  lemma SameKind(word: Word, word': Word, d: Address)
    requires MovesControl(word, word', d)
    ensures IsJump29(word') == IsJump29(word)
    ensures !IsJump29(word) ==> IsJump(word') == IsJump(word)
    ensures !IsJump29(word) && !IsJump(word) ==> IsCall(word') == IsCall(word)
    ensures !IsJump29(word) && !IsJump(word) && !IsCall(word) ==> word' == word
  {
    hide IsJump29, IsJump, IsCall, Target29, Target, Moved;
    OneKind(word');
  }

  lemma ControlMoves(s: State, s': State, word: Word, word': Word, d: Address)
    requires Multiple4(d) && SimilarState(s, s', d) && MovesControl(word, word', d)
    ensures SimilarState(Control(s, word), Control(s', word'), d)
  {
    hide IsJump29, IsJump, IsCall, IsReturn, IsHeader, Target29, Target, InSubroutine, Return, Align, AfterHeader;
    hide Multiple4, Moved, Moves;
    SameKind(word, word', d);
    SubroutineMoves(s.subroutine, s'.subroutine, d);
    if IsJump29(word) {
    } else if IsJump(word) {
    } else if IsCall(word) {
      ReturnMoves(s.get, d);
    } else {
      ZeroMoves(d);
    }
  }

  lemma ZeroMoves(d: Address)
    ensures Moves(0, 0, d)
  {
  }

  lemma ControlSignature(word: Word, word': Word, base: Address, base': Address)
    requires MovesControl(word, word', Offset(base', base)) && NonzeroTarget(word) && NonzeroTarget(word')
    ensures NormalizeControlWord(word', true, base', false) == NormalizeControlWord(word, true, base, false)
  {
    hide IsJump29, IsJump, IsCall, Target29, Target, Moved, Offset, Align;
    OneKind(word');
    MoveOffset(Target29(word), base, base');
    MoveOffset(Target(word), base, base');
  }

  lemma FetchedMoves(s: State, s': State, frame: nat, address: Address, address': Address, d: Address)
    requires SimilarState(s, s', d) && address' == Moved(address, d)
    ensures SimilarState(Fetched(s, frame, address), Fetched(s', frame, address'), d)
  {
    hide Next, Moved, Moves;
    MoveNext(address, d);
    MoveInjective(address, s.get, d);
    assert (address' != s'.get) == (address != s.get);
    if frame < s.frame {
    } else if address != s.get {
    }
  }

  lemma PushMoves(s: State, s': State, frame: nat, address: Address, address': Address, word: Word, word': Word,
                  d: Address)
    requires Multiple4(d) && SimilarState(s, s', d) && address' == Moved(address, d)
    requires if Count(s.state) != 0 then word' == word else MovesControl(word, word', d)
    ensures SimilarState(PushWord(s, frame, address, word), PushWord(s', frame, address', word'), d)
  {
    hide Multiple4, Moved, Moves, MovesControl, Count, Fetched, Control, AfterData, SubchannelOf, MethodOf;
    FetchedMoves(s, s', frame, address, address', d);
    var f, f' := Fetched(s, frame, address), Fetched(s', frame, address');
    FetchedKeepsState(s, frame, address);
    FetchedKeepsState(s', frame, address');
    if s.active && Count(s.state) == 0 {
      ControlMoves(f, f', word, word', d);
    }
  }

  lemma FetchedKeepsState(s: State, frame: nat, address: Address)
    ensures Fetched(s, frame, address).state == s.state && Fetched(s, frame, address).active == s.active
  {
    hide Next;
  }

  /** Without host mode nothing is normalized. */
  lemma PlainSignature(v: Address, word: Word, base: Address, methodData: bool)
    ensures NormalizeRunAddress(v, false, base) == v
    ensures NormalizeControlWord(word, false, base, methodData) == word as int
  {
    hide IsJump29, IsJump, IsCall, Target29, Target;
  }

  lemma PlainRun(f: RunFields, base: Address)
    ensures NormalizeRunAddress(f.get, false, base) == f.get && NormalizeRunAddress(f.put, false, base) == f.put
    ensures NormalizeRunAddress(f.subroutine, false, base) == f.subroutine
  {
  }

  lemma RunMoves(c: Comparison, c': Comparison, f: RunFields, f': RunFields)
    requires Similar(c, c') && MovesRun(f, f')
    ensures Similar(Advance(c, Run(f)), Advance(c', Run(f')))
    ensures SignatureIn(c', Run(f')) == SignatureIn(c, Run(f))
  {
    hide Multiple4, Moved, Moves, Offset, NormalizeRunAddress;
    var d := Offset(f'.base, f.base);
    MoveNothing(f.get);
    MoveNothing(f.subroutine);
    Unmoved(f.get, f'.get, d);
    if f.hostMode {
      RunAddressMoves(f.get, f'.get, true, f.base, f'.base);
      RunAddressMoves(f.put, f'.put, true, f.base, f'.base);
      RunAddressMoves(f.subroutine, f'.subroutine, true, f.base, f'.base);
    } else {
      PlainRun(f, f.base);
      PlainRun(f, f'.base);
    }
  }

  lemma Unmoved(v: Address, w: Address, d: Address)
    ensures v != 0 && Moves(v, w, d) ==> w == Moved(v, d)
  {
  }

  lemma FetchMoves(c: Comparison, c': Comparison, frame: nat, address: Address, address': Address, word: Word,
                   word': Word)
    requires Similar(c, c')
    requires MovesEvent(c.hostMode, Count(c.replay.state) != 0, Distance(c, c'),
      Fetch(frame, address, word), Fetch(frame, address', word'))
    ensures Similar(Advance(c, Fetch(frame, address, word)), Advance(c', Fetch(frame, address', word')))
    ensures SignatureIn(c', Fetch(frame, address', word')) == SignatureIn(c, Fetch(frame, address, word))
  {
    hide Multiple4, Moved, Offset, Count, PushWord, MovesControl, NonzeroTarget, NormalizeRunAddress,
         NormalizeControlWord;
    var d := Distance(c, c');
    if c.hostMode {
      PushMoves(c.replay, c'.replay, frame, address, address', word, word', d);
      RunAddressMoves(address, address', true, c.base, c'.base);
      DataSignature(word, true, c.base, c'.base);
      if Count(c.replay.state) == 0 {
        ControlSignature(word, word', c.base, c'.base);
      }
    } else {
      MoveNothing(address);
      StaysControl(word);
      PlainSignature(address, word, c.base, Count(c.replay.state) != 0);
      PlainSignature(address, word, c'.base, Count(c.replay.state) != 0);
      PushMoves(c.replay, c'.replay, frame, address, address', word, word', d);
    }
  }

  lemma StaysControl(word: Word)
    ensures MovesControl(word, word, 0)
  {
    hide IsJump29, IsJump, IsCall, Target29, Target, Moved;
    MoveNothing(Target29(word));
    MoveNothing(Target(word));
  }

  lemma DataSignature(word: Word, hostMode: bool, base: Address, base': Address)
    ensures NormalizeControlWord(word, hostMode, base', true) == NormalizeControlWord(word, hostMode, base, true)
  {
    hide IsJump29, IsJump, IsCall, Target29, Target;
  }

  lemma EventMoves(c: Comparison, c': Comparison, e: Event, e': Event)
    requires Similar(c, c') && MovesEvent(c.hostMode, Count(c.replay.state) != 0, Distance(c, c'), e, e')
    ensures Similar(Advance(c, e), Advance(c', e')) && SignatureIn(c', e') == SignatureIn(c, e)
  {
    match e
    case Run(f) =>
      RunMoves(c, c', f, e'.fields);
    case Fetch(frame, address, word) =>
      FetchMoves(c, c', frame, address, e'.address, word, e'.word);
    case Recorded(_) =>
    case Other(_) =>
  }

  /** Simulation: at every record the two replays agree up to the distance of the run, and
      the signatures so far are the same. */
  lemma {:induction false} RelocationSimulates(events: seq<Event>, moved: seq<Event>, n: nat)
    requires Relocated(events, moved) && n <= |events|
    ensures Similar(After(events, n), After(moved, n))
    ensures Signatures(moved, n) == Signatures(events, n)
    ensures RecordedCalls(moved, n) == RecordedCalls(events, n)
  {
    hide Similar, Advance, SignatureIn;
    if n == 0 {
      StartSimilar();
    } else {
      RelocationSimulates(events, moved, n - 1);
      EventMoves(After(events, n - 1), After(moved, n - 1), events[n - 1], moved[n - 1]);
    }
  }

  lemma StartSimilar()
    ensures Similar(START, START)
  {
    MoveNothing(0);
  }

  /** A relocated capture is accepted when the original is, and compares equal to it. */
  lemma RelocatedCapturesCompareEqual(events: seq<Event>, moved: seq<Event>)
    requires Relocated(events, moved)
    ensures Signatures(moved, |moved|) == Signatures(events, |events|)
    ensures Accepted(moved) == Accepted(events)
  {
    hide After, Signatures, RecordedCalls, Relocated;
    SameLength(events, moved);
    RelocationSimulates(events, moved, |events|);
  }

  lemma SameLength(events: seq<Event>, moved: seq<Event>)
    requires Relocated(events, moved)
    ensures |moved| == |events|
  {
  }

  /** What the offset of an address forgets: it tells all addresses apart, except that "no address" and the
      base itself have the same offset. */
  lemma OffsetForgets(v: Address, w: Address, base: Address)
    ensures NormalizeRunAddress(v, true, base) == NormalizeRunAddress(w, true, base)
      <==> v == w || (v == 0 && w == base) || (w == 0 && v == base)
  {
    hide Offset;
    OffsetDifference(v, base);
    OffsetDifference(w, base);
  }

  /** Exactly when a moved address keeps its offset: zero before or after the move is what a
      comparison can mistake. */
  lemma MovedAddressCompares(v: Address, base: Address, base': Address)
    ensures var w := Moved(v, Offset(base', base));
      NormalizeRunAddress(w, true, base') == NormalizeRunAddress(v, true, base)
      <==> (v != 0 && w != 0) || (v == 0 && (w == 0 || base == 0)) || (w == 0 && v == base)
  {
    hide Moved, Offset;
    var d := Offset(base', base);
    MoveOffset(v, base, base');
    MovedSum(v, d);
    OffsetDifference(base', base);
    OffsetDifference(v, base);
  }

  /** The base itself compares equal to no address. */
  lemma BaseLooksLikeNothing(base: Address)
    requires base != 0
    ensures NormalizeRunAddress(base, true, base) == NormalizeRunAddress(0, true, base)
  {
  }

  /** Moved by 0x1000 with their base, no address and the address that lands on zero both change
      their offsets. */
  lemma ZeroMovesBadly()
    ensures var base, base', v := 0x1000, 0x2000, 0xFFFF_F000;
      && Moved(0, Offset(base', base)) == 0x1000
      && NormalizeRunAddress(0x1000, true, base') != NormalizeRunAddress(0, true, base)
      && Moved(v, Offset(base', base)) == 0
      && NormalizeRunAddress(0, true, base') != NormalizeRunAddress(v, true, base)
  {
  }
}
