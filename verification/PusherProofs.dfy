/** What the push-buffer replay makes of packets, jumps and calls (nv2a_capture.py: PusherReplay). */
module PusherProofs {
  import opened Numbers
  import opened Pusher

  // ---- Small numbers as words ----

  /** `w` with one more bit at its low end. */
  ghost function Append(w: Word, bit: bool): Word {
    (w << 1) | if bit then 1 else 0
  }

  /** The word that holds `n`. */
  ghost function WordOf(n: nat): Word {
    if n == 0 then 0 else Append(WordOf(n / 2), n % 2 == 1)
  }

  ghost function Pred(w: Word): Word { w - 1 }

  lemma {:induction false} WordOfPred(n: nat)
    requires n > 0
    ensures Pred(WordOf(n)) == WordOf(n - 1)
  {
    hide Append, Pred;
    AppendPred(WordOf(n / 2));
    if n % 2 == 1 {
      assert (n - 1) / 2 == n / 2;
      if n == 1 {
        AppendNothing();
      }
    } else {
      WordOfPred(n / 2);
      assert (n - 1) / 2 == n / 2 - 1;
    }
  }

  lemma AppendPred(w: Word)
    ensures Pred(Append(w, true)) == Append(w, false)
    ensures Pred(Append(w, false)) == Append(Pred(w), true)
  {
  }

  lemma AppendNothing()
    ensures Append(0, false) == 0
  {
  }

  /** The largest word of `k` bits. */
  ghost function Mask(k: nat): Word {
    if k == 0 then 0 else Append(Mask(k - 1), true)
  }

  ghost predicate AtMost(w: Word, m: Word) { w <= m }

  lemma {:induction false} WordOfBounded(n: nat, k: nat)
    requires n < Pow2(k) && k <= 11
    ensures AtMost(WordOf(n), Mask(k))
    ensures n == 0 || WordOf(n) != 0
    decreases k
  {
    hide AtMost, Append;
    if n == 0 {
      ZeroLeast(Mask(k));
    } else {
      WordOfBounded(n / 2, k - 1);
      MaskBounded(k - 1);
      Appended(WordOf(n / 2), Mask(k - 1), n % 2 == 1);
    }
  }

  lemma ZeroLeast(m: Word)
    ensures AtMost(0, m)
  {
  }

  lemma {:induction false} MaskBounded(k: nat)
    requires k <= 11
    ensures AtMost(Mask(k), 0x7FF) && (k < 11 ==> AtMost(Mask(k), 0x3FF))
  {
    assert Mask(0) == 0 && Mask(1) == 1 && Mask(2) == 3 && Mask(3) == 7;
    assert Mask(4) == 0xF && Mask(5) == 0x1F && Mask(6) == 0x3F && Mask(7) == 0x7F;
    assert Mask(8) == 0xFF && Mask(9) == 0x1FF && Mask(10) == 0x3FF && Mask(11) == 0x7FF;
  }

  lemma Appended(w: Word, m: Word, bit: bool)
    requires AtMost(w, m) && AtMost(m, 0x3FF)
    ensures AtMost(Append(w, bit), Append(m, true))
    ensures w != 0 || bit ==> Append(w, bit) != 0
  {
  }

  lemma CountWord(n: nat)
    requires n <= 2047
    ensures WordOf(n) <= 0x7FF
    ensures n == 0 <==> WordOf(n) == 0
  {
    assert Pow2(11) == 2048;
    MaskBounded(11);
    WordOfBounded(n, 11);
    AtMostTrans(WordOf(n), Mask(11));
  }

  lemma AtMostTrans(w: Word, m: Word)
    requires AtMost(w, m) && AtMost(m, 0x7FF)
    ensures w <= 0x7FF
  {
  }

  // ---- Packets ----

  /** Stream items between which the pusher is idle. */
  datatype Item =
    | Packet(subchannel: Word, method_: Word, incrementing: bool, data: seq<Word>)
    | Jump29(target: Word)
    | Jump(target: Word)
    | Call(target: Word, body: seq<Item>)

  ghost predicate ValidItem(item: Item)
    decreases item
  {
    match item
    case Packet(subchannel, m, _, data) => subchannel <= 7 && m & METHOD_MASK == m && |data| <= 2047
    case Jump29(t) => Aligned29(t)
    case Jump(t) => Aligned32(t)
    case Call(t, body) =>
      && Aligned32(t)
      && forall k :: 0 <= k < |body| ==> !body[k].Call? && ValidItem(body[k])
  }

  ghost function HeaderWord(count: Word, subchannel: Word, m: Word, incrementing: bool): Word {
    (count << 18) | (subchannel << 13) | m | if incrementing then 0 else 0x4000_0000
  }

  ghost function Jump29Word(target: Word): Word { 0x2000_0000 | target }
  ghost function JumpWord(target: Word): Word { target | 1 }
  ghost function CallWord(target: Word): Word { target | 2 }
  ghost function ReturnWord(): Word { 0x0002_0000 }
  ghost predicate Aligned29(target: Word) { target & 0x1FFF_FFFC == target }
  ghost predicate Aligned32(target: Word) { target & 0xFFFF_FFFC == target }
  ghost predicate Aligned(address: Address) { address % 4 == 0 }

  ghost function Header(item: Item): Word
    requires item.Packet?
  {
    HeaderWord(WordOf(|item.data|), item.subchannel, item.method_, item.incrementing)
  }

  /** Words at consecutive addresses from `get`. */
  ghost function DataWords(get: Address, data: seq<Word>): seq<(Address, Word)>
    decreases data
  {
    if data == [] then [] else [(get, data[0])] + DataWords(Next(get), data[1..])
  }

  ghost function Behind(get: Address, data: seq<Word>): Address
    decreases data
  {
    if data == [] then get else Behind(Next(get), data[1..])
  }

  /** The fetches that run through an item from `get`, as (address, word) pairs. */
  ghost function Encode(item: Item, get: Address): seq<(Address, Word)>
    decreases item
  {
    match item
    case Packet(_, _, _, data) => [(get, Header(item))] + DataWords(Next(get), data)
    case Jump29(t) => [(get, Jump29Word(t))]
    case Jump(t) => [(get, JumpWord(t))]
    case Call(t, body) =>
      [(get, CallWord(t))] + EncodeAll(body, Target(t), |body|)
      + [(EndOfAll(body, Target(t), |body|), ReturnWord())]
  }

  /** Where the read pointer is after an item. */
  ghost function EndOf(item: Item, get: Address): Address {
    match item
    case Packet(_, _, _, data) => Behind(Next(get), data)
    case Jump29(t) => Target29(t)
    case Jump(t) => Target(t)
    case Call(_, _) => Next(get)
  }

  ghost function EncodeAll(items: seq<Item>, get: Address, n: nat): seq<(Address, Word)>
    requires n <= |items|
    decreases items, n
  {
    if n == 0 then [] else EncodeAll(items, get, n - 1) + Encode(items[n - 1], EndOfAll(items, get, n - 1))
  }

  ghost function EndOfAll(items: seq<Item>, get: Address, n: nat): Address
    requires n <= |items|
  {
    if n == 0 then get else EndOf(items[n - 1], EndOfAll(items, get, n - 1))
  }

  /** The number of words of an item. */
  ghost function Words(item: Item): nat
    decreases item
  {
    match item
    case Packet(_, _, _, data) => 1 + |data|
    case Jump29(_) => 1
    case Jump(_) => 1
    case Call(_, body) => 2 + WordsOfAll(body, |body|)
  }

  ghost function WordsOfAll(items: seq<Item>, n: nat): nat
    requires n <= |items|
    decreases items, n
  {
    if n == 0 then 0 else WordsOfAll(items, n - 1) + Words(items[n - 1])
  }

  /** The frames of the words of a stream never go back. */
  ghost predicate Monotone(clock: nat -> nat) {
    forall i, j :: i <= j ==> clock(i) <= clock(j)
  }

  /** The method calls an item stands for; its first word is word `j` of the stream, and every call
      has the frame of its data word. */
  ghost function Calls(item: Item, clock: nat -> nat, j: nat): seq<Method>
    decreases item
  {
    match item
    case Packet(subchannel, m, incrementing, data) => PacketCalls(clock, j + 1, subchannel, m, incrementing, data)
    case Jump29(_) => []
    case Jump(_) => []
    case Call(_, body) => AllCalls(body, clock, j + 1, |body|)
  }

  /** The method of the next data word. */
  ghost function NextMethod(m: Word, incrementing: bool): Word {
    if incrementing then (m + 4) & METHOD_MASK else m
  }

  ghost function PacketCalls(clock: nat -> nat, j: nat, subchannel: Word, m: Word, incrementing: bool,
                             data: seq<Word>): seq<Method>
    decreases data
  {
    if data == [] then []
    else
      [Method(clock(j), subchannel, m, data[0])]
      + PacketCalls(clock, j + 1, subchannel, NextMethod(m, incrementing), incrementing, data[1..])
  }

  ghost function AllCalls(items: seq<Item>, clock: nat -> nat, j: nat, n: nat): seq<Method>
    requires n <= |items|
    decreases items, n
  {
    if n == 0 then []
    else AllCalls(items, clock, j, n - 1) + Calls(items[n - 1], clock, j + WordsOfAll(items, n - 1))
  }

  /** The words of `ws` pushed in order, the first as word `j` of the stream. */
  ghost function Feed(s: State, clock: nat -> nat, j: nat, ws: seq<(Address, Word)>): State {
    if ws == [] then s
    else
      var last := |ws| - 1;
      PushWord(Feed(s, clock, j, ws[..last]), clock(j + last), ws[last].0, ws[last].1)
  }

  lemma {:induction false} DataWordsSize(get: Address, data: seq<Word>)
    ensures |DataWords(get, data)| == |data|
    decreases data
  {
    hide Next;
    if data != [] {
      DataWordsSize(Next(get), data[1..]);
    }
  }

  lemma {:induction false} EncodeSize(item: Item, get: Address)
    ensures |Encode(item, get)| == Words(item)
    decreases item, 1
  {
    hide Target, EndOfAll;
    match item
    case Packet(_, _, _, data) => DataWordsSize(Next(get), data);
    case Jump29(t) =>
    case Jump(t) =>
    case Call(t, body) => EncodeAllSize(body, Target(t), |body|);
  }

  lemma {:induction false} EncodeAllSize(items: seq<Item>, get: Address, n: nat)
    requires n <= |items|
    ensures |EncodeAll(items, get, n)| == WordsOfAll(items, n)
    decreases items, n
  {
    hide Encode, EndOf, Words;
    if n != 0 {
      EncodeAllSize(items, get, n - 1);
      EncodeSize(items[n - 1], EndOfAll(items, get, n - 1));
    }
  }

  lemma {:induction false} FeedConcat(s: State, clock: nat -> nat, j: nat, a: seq<(Address, Word)>,
                                      b: seq<(Address, Word)>)
    ensures Feed(s, clock, j, a + b) == Feed(Feed(s, clock, j, a), clock, j + |a|, b)
    decreases |b|
  {
    hide PushWord;
    if b == [] {
      assert a + b == a;
    } else {
      FeedConcat(s, clock, j, a, b[..|b| - 1]);
      assert (a + b)[..|a + b| - 1] == a + b[..|b| - 1];
    }
  }

  lemma FeedOne(s: State, clock: nat -> nat, j: nat, address: Address, word: Word)
    ensures Feed(s, clock, j, [(address, word)]) == PushWord(s, clock(j), address, word)
  {
    hide PushWord;
    assert [(address, word)][..0] == [];
  }

  /** Between packets, at `get`, in a frame not later than `frame`. */
  ghost predicate IdleAt(s: State, frame: nat, get: Address) {
    s.active && s.frame <= frame && s.get == get && Count(s.state) == 0
  }

  // ---- Bit-level facts ----

  lemma HeaderBits(count: Word, subchannel: Word, m: Word, incrementing: bool)
    requires count <= 0x7FF && subchannel <= 7 && m & METHOD_MASK == m
    ensures var word := HeaderWord(count, subchannel, m, incrementing);
      && !IsJump29(word) && !IsJump(word) && !IsCall(word) && !IsReturn(word) && IsHeader(word)
  {
  }

  lemma HeaderCount(state: Word, count: Word, subchannel: Word, m: Word, incrementing: bool)
    requires count <= 0x7FF && subchannel <= 7 && m & METHOD_MASK == m
    ensures var after := AfterHeader(state, HeaderWord(count, subchannel, m, incrementing));
      Count(after) == count
  {
  }

  lemma HeaderMethod(state: Word, count: Word, subchannel: Word, m: Word, incrementing: bool)
    requires count <= 0x7FF && subchannel <= 7 && m & METHOD_MASK == m
    ensures var after := AfterHeader(state, HeaderWord(count, subchannel, m, incrementing));
      MethodOf(after) == m
  {
  }

  lemma HeaderSubchannel(state: Word, count: Word, subchannel: Word, m: Word, incrementing: bool)
    requires count <= 0x7FF && subchannel <= 7 && m & METHOD_MASK == m
    ensures var after := AfterHeader(state, HeaderWord(count, subchannel, m, incrementing));
      SubchannelOf(after) == subchannel
  {
  }

  lemma HeaderMode(state: Word, count: Word, subchannel: Word, m: Word, incrementing: bool)
    requires count <= 0x7FF && subchannel <= 7 && m & METHOD_MASK == m
    ensures var after := AfterHeader(state, HeaderWord(count, subchannel, m, incrementing));
      after & 1 == 0 <==> incrementing
  {
  }

  lemma DataState(state: Word)
    requires Count(state) != 0
    ensures var after := AfterData(state);
      && Count(after) == Count(state) - 1 && SubchannelOf(after) == SubchannelOf(state)
      && after & 1 == state & 1
      && MethodOf(after) == (if state & 1 == 0 then (MethodOf(state) + 4) & METHOD_MASK else MethodOf(state))
      && MethodOf(after) & METHOD_MASK == MethodOf(after)
  {
  }

  // ---- Packets replay to their calls ----

  /** Everything but the read pointer, the state word, the frame, the subroutine register
      and the decoded calls is as before. */
  ghost predicate SameErrors(s: State, t: State) {
    t.addressErrors == s.addressErrors && t.packetErrors == s.packetErrors
  }

  /** Inside a packet: `data` is still to come and will call `m` on `subchannel`. */
  ghost predicate InPacket(s: State, frame: nat, get: Address, subchannel: Word, m: Word, incrementing: bool,
                           data: seq<Word>) {
    && s.active && s.frame <= frame && s.get == get
    && Count(s.state) == WordOf(|data|) && |data| <= 2047
    && SubchannelOf(s.state) == subchannel && MethodOf(s.state) == m
    && (s.state & 1 == 0 <==> incrementing)
  }

  ghost predicate Replayed(s: State, t: State, frame: nat, get: Address, calls: seq<Method>) {
    && IdleAt(t, frame, get) && SameErrors(s, t) && t.methods == s.methods + calls
  }

  lemma FetchInOrder(s: State, frame: nat, get: Address)
    requires s.get == get && s.frame <= frame
    ensures Fetched(s, frame, get) == s.(frame := frame, get := Next(get))
  {
    hide Next;
  }

  lemma DataStep(s: State, frame: nat, get: Address, subchannel: Word, m: Word, incrementing: bool, data: seq<Word>)
    requires InPacket(s, frame, get, subchannel, m, incrementing, data) && data != []
    ensures var t := PushWord(s, frame, get, data[0]);
      && InPacket(t, frame, Next(get), subchannel, NextMethod(m, incrementing), incrementing, data[1..])
      && t.methods == s.methods + [Method(frame, subchannel, m, data[0])]
      && SameErrors(s, t) && t.subroutine == s.subroutine
  {
    hide Count, SubchannelOf, MethodOf, AfterData, WordOf, Next, Control, Fetched;
    CountWord(|data|);
    WordOfPred(|data|);
    assert Pred(WordOf(|data|)) == WordOf(|data[1..]|);
    DataState(s.state);
    FetchInOrder(s, frame, get);
  }

  lemma PacketDone(s: State, frame: nat, get: Address, subchannel: Word, m: Word, incrementing: bool)
    requires InPacket(s, frame, get, subchannel, m, incrementing, [])
    ensures IdleAt(s, frame, get)
  {
    hide Count, SubchannelOf, MethodOf;
  }

  lemma Unfolded(s: State, clock: nat -> nat, j: nat, get: Address, subchannel: Word, m: Word, incrementing: bool,
                 data: seq<Word>)
    ensures data == [] ==>
      && Feed(s, clock, j, DataWords(get, data)) == s && Behind(get, data) == get
      && PacketCalls(clock, j, subchannel, m, incrementing, data) == []
    ensures data != [] ==>
      && DataWords(get, data) == [(get, data[0])] + DataWords(Next(get), data[1..])
      && Behind(get, data) == Behind(Next(get), data[1..])
      && PacketCalls(clock, j, subchannel, m, incrementing, data)
        == [Method(clock(j), subchannel, m, data[0])]
          + PacketCalls(clock, j + 1, subchannel, NextMethod(m, incrementing), incrementing, data[1..])
  {
    hide Next, NextMethod, PushWord;
  }

  /** Time goes on inside a packet. */
  lemma Later(s: State, frame: nat, frame': nat, get: Address, subchannel: Word, m: Word, incrementing: bool,
              data: seq<Word>)
    requires InPacket(s, frame, get, subchannel, m, incrementing, data) && frame <= frame'
    ensures InPacket(s, frame', get, subchannel, m, incrementing, data)
  {
    hide Count, SubchannelOf, MethodOf;
  }

  lemma {:induction false} DataReplays(s: State, clock: nat -> nat, j: nat, get: Address, subchannel: Word, m: Word,
                                       incrementing: bool, data: seq<Word>)
    requires InPacket(s, clock(j), get, subchannel, m, incrementing, data) && Monotone(clock)
    ensures var t := Feed(s, clock, j, DataWords(get, data));
      && Replayed(s, t, clock(j + |data|), Behind(get, data),
                  PacketCalls(clock, j, subchannel, m, incrementing, data))
      && t.subroutine == s.subroutine
    decreases data
  {
    hide PushWord, InPacket, IdleAt, Next, NextMethod, DataWords, Behind, PacketCalls, Feed;
    Unfolded(s, clock, j, get, subchannel, m, incrementing, data);
    if data == [] {
      PacketDone(s, clock(j), get, subchannel, m, incrementing);
    } else {
      var t := PushWord(s, clock(j), get, data[0]);
      DataStep(s, clock(j), get, subchannel, m, incrementing, data);
      Later(t, clock(j), clock(j + 1), Next(get), subchannel, NextMethod(m, incrementing), incrementing, data[1..]);
      DataReplays(t, clock, j + 1, Next(get), subchannel, NextMethod(m, incrementing), incrementing, data[1..]);
      FeedConcat(s, clock, j, [(get, data[0])], DataWords(Next(get), data[1..]));
      FeedOne(s, clock, j, get, data[0]);
    }
  }

  /** What a header word says, and what it makes of the state word. */
  ghost predicate HeaderSays(state: Word, word: Word, count: Word, subchannel: Word, m: Word, incrementing: bool) {
    var after := AfterHeader(state, word);
    && !IsJump29(word) && !IsJump(word) && !IsCall(word) && !IsReturn(word) && IsHeader(word)
    && Count(after) == count && MethodOf(after) == m && SubchannelOf(after) == subchannel
    && (after & 1 == 0 <==> incrementing)
  }

  lemma HeaderWordSays(state: Word, count: Word, subchannel: Word, m: Word, incrementing: bool)
    requires count <= 0x7FF && subchannel <= 7 && m & METHOD_MASK == m
    ensures HeaderSays(state, HeaderWord(count, subchannel, m, incrementing), count, subchannel, m, incrementing)
  {
    hide Count, SubchannelOf, MethodOf, AfterHeader, HeaderWord, IsJump29, IsJump, IsCall, IsReturn, IsHeader;
    HeaderBits(count, subchannel, m, incrementing);
    HeaderCount(state, count, subchannel, m, incrementing);
    HeaderMethod(state, count, subchannel, m, incrementing);
    HeaderSubchannel(state, count, subchannel, m, incrementing);
    HeaderMode(state, count, subchannel, m, incrementing);
  }

  lemma HeaderMeaning(state: Word, item: Item)
    requires item.Packet? && ValidItem(item)
    ensures HeaderSays(state, Header(item), WordOf(|item.data|), item.subchannel, item.method_, item.incrementing)
  {
    hide HeaderWord, WordOf;
    hide Count, SubchannelOf, MethodOf, AfterHeader, IsJump29, IsJump, IsCall, IsReturn, IsHeader;
    CountWord(|item.data|);
    HeaderWordSays(state, WordOf(|item.data|), item.subchannel, item.method_, item.incrementing);
  }

  lemma HeaderStep(s: State, frame: nat, get: Address, item: Item)
    requires item.Packet? && ValidItem(item) && IdleAt(s, frame, get)
    ensures var t := PushWord(s, frame, get, Header(item));
      && InPacket(t, frame, Next(get), item.subchannel, item.method_, item.incrementing, item.data)
      && t.methods == s.methods && SameErrors(s, t) && t.subroutine == s.subroutine
  {
    hide Count, SubchannelOf, MethodOf, AfterHeader, WordOf, Next, Fetched, Header;
    hide IsJump29, IsJump, IsCall, IsReturn, IsHeader, Target29, Target, Return, InSubroutine, PushWord;
    HeaderMeaning(s.state, item);
    ControlStep(s, frame, get, Header(item));
  }

  lemma PacketUnfolded(clock: nat -> nat, j: nat, get: Address, item: Item)
    requires item.Packet?
    ensures Encode(item, get) == [(get, Header(item))] + DataWords(Next(get), item.data)
    ensures EndOf(item, get) == Behind(Next(get), item.data)
    ensures Calls(item, clock, j)
      == PacketCalls(clock, j + 1, item.subchannel, item.method_, item.incrementing, item.data)
  {
  }

  lemma Ticks(clock: nat -> nat, j: nat)
    requires Monotone(clock)
    ensures clock(j) <= clock(j + 1)
  {
  }

  lemma PacketReplays(s: State, clock: nat -> nat, j: nat, get: Address, item: Item)
    requires item.Packet? && ValidItem(item) && IdleAt(s, clock(j), get) && Monotone(clock)
    ensures var t := Feed(s, clock, j, Encode(item, get));
      && Replayed(s, t, clock(j + Words(item)), EndOf(item, get), Calls(item, clock, j))
      && t.subroutine == s.subroutine
  {
    hide PushWord, Count, Header, ValidItem, InPacket, Feed, DataWords, Behind, PacketCalls, Monotone, IdleAt, Next,
         Encode, Calls, EndOf;
    PacketUnfolded(clock, j, get, item);
    assert clock(j) <= clock(j + 1) by { Ticks(clock, j); }
    var t := PushWord(s, clock(j), get, Header(item));
    HeaderStep(s, clock(j), get, item);
    Later(t, clock(j), clock(j + 1), Next(get), item.subchannel, item.method_, item.incrementing, item.data);
    DataReplays(t, clock, j + 1, Next(get), item.subchannel, item.method_, item.incrementing, item.data);
    FeedConcat(s, clock, j, [(get, Header(item))], DataWords(Next(get), item.data));
    FeedOne(s, clock, j, get, Header(item));
  }

  // ---- Jumps, calls and returns ----

  lemma Jump29Bits(t: Word)
    requires Aligned29(t)
    ensures IsJump29(Jump29Word(t)) && Target29(Jump29Word(t)) == Target29(t)
  {
  }

  lemma JumpBits(t: Word)
    requires Aligned32(t)
    ensures !IsJump29(JumpWord(t)) && IsJump(JumpWord(t)) && Target(JumpWord(t)) == Target(t)
  {
  }

  lemma CallBits(t: Word)
    requires Aligned32(t)
    ensures !IsJump29(CallWord(t)) && !IsJump(CallWord(t)) && IsCall(CallWord(t)) && Target(CallWord(t)) == Target(t)
  {
  }

  lemma ReturnBits()
    ensures var w := ReturnWord(); !IsJump29(w) && !IsJump(w) && !IsCall(w) && IsReturn(w)
  {
  }

  lemma OddBehind(quads: nat)
    ensures (4 * quads + 1) % 4 == 1 && (4 * quads + 1) % 2 == 1
  {
    assert (4 * quads + 1) / 2 == 2 * quads;
  }

  lemma Returns(get: Address)
    requires Aligned(get)
    ensures InSubroutine(Return(get)) && Align(Return(get)) == get
  {
    OddBehind(get / 4);
  }

  lemma StaysAligned(get: Address)
    requires Aligned(get)
    ensures Aligned(Next(get))
  {
  }

  lemma TargetAligned(target: Word)
    ensures Aligned(Target(target)) && Aligned(Target29(target))
  {
  }

  lemma {:induction false} BehindAligned(get: Address, data: seq<Word>)
    requires Aligned(get)
    ensures Aligned(Behind(get, data))
    decreases data
  {
    hide Aligned, Next;
    if data != [] {
      StaysAligned(get);
      BehindAligned(Next(get), data[1..]);
    }
  }

  lemma NotInSubroutine()
    ensures !InSubroutine(0)
  {
  }

  /** A control word met between packets. */
  lemma ControlStep(s: State, frame: nat, get: Address, word: Word)
    requires IdleAt(s, frame, get)
    ensures PushWord(s, frame, get, word) == Control(s.(frame := frame, get := Next(get)), word)
  {
    hide Count, Control, Next, Fetched;
    FetchInOrder(s, frame, get);
  }

  lemma JumpStep29(s: State, frame: nat, get: Address, target: Word)
    requires Aligned29(target) && IdleAt(s, frame, get)
    ensures PushWord(s, frame, get, Jump29Word(target)) == s.(frame := frame, get := Target29(target))
  {
    hide Count, PushWord, Next, IsJump29, IsJump, IsCall, IsReturn, IsHeader, Target29, Target, InSubroutine, Return,
         Align;
    hide Jump29Word, JumpWord, CallWord, ReturnWord, Aligned29, Aligned32;
    Jump29Bits(target);
    ControlStep(s, frame, get, Jump29Word(target));
  }

  lemma JumpStep(s: State, frame: nat, get: Address, target: Word)
    requires Aligned32(target) && IdleAt(s, frame, get)
    ensures PushWord(s, frame, get, JumpWord(target)) == s.(frame := frame, get := Target(target))
  {
    hide Count, PushWord, Next, IsJump29, IsJump, IsCall, IsReturn, IsHeader, Target29, Target, InSubroutine, Return,
         Align;
    hide Jump29Word, JumpWord, CallWord, ReturnWord, Aligned29, Aligned32;
    JumpBits(target);
    ControlStep(s, frame, get, JumpWord(target));
  }

  lemma EncodeJump29(item: Item, get: Address)
    requires item.Jump29? && ValidItem(item)
    ensures Encode(item, get) == [(get, Jump29Word(item.target))] && EndOf(item, get) == Target29(item.target)
    ensures Aligned29(item.target)
  {
  }

  lemma EncodeJump(item: Item, get: Address)
    requires item.Jump? && ValidItem(item)
    ensures Encode(item, get) == [(get, JumpWord(item.target))] && EndOf(item, get) == Target(item.target)
    ensures Aligned32(item.target)
  {
  }

  lemma JumpReplays(s: State, clock: nat -> nat, j: nat, get: Address, item: Item)
    requires item.Jump29? || item.Jump?
    requires ValidItem(item) && IdleAt(s, clock(j), get) && Monotone(clock)
    ensures var t := Feed(s, clock, j, Encode(item, get));
      && Replayed(s, t, clock(j + 1), EndOf(item, get), []) && t.subroutine == s.subroutine
      && Aligned(EndOf(item, get))
  {
    hide Count, PushWord, Feed, Encode, EndOf, ValidItem;
    if item.Jump29? {
      EncodeJump29(item, get);
      JumpStep29(s, clock(j), get, item.target);
      FeedOne(s, clock, j, get, Jump29Word(item.target));
    } else {
      EncodeJump(item, get);
      JumpStep(s, clock(j), get, item.target);
      FeedOne(s, clock, j, get, JumpWord(item.target));
    }
    TargetAligned(item.target);
  }

  lemma CallStep(s: State, frame: nat, get: Address, target: Word)
    requires Aligned32(target) && IdleAt(s, frame, get) && !InSubroutine(s.subroutine)
    ensures PushWord(s, frame, get, CallWord(target))
      == s.(frame := frame, subroutine := Return(Next(get)), get := Target(target))
  {
    hide Count, PushWord, Next, IsJump29, IsJump, IsCall, IsReturn, IsHeader, Target29, Target, InSubroutine, Return,
         Align;
    hide Jump29Word, JumpWord, CallWord, ReturnWord, Aligned29, Aligned32;
    CallBits(target);
    ControlStep(s, frame, get, CallWord(target));
  }

  lemma ReturnStep(s: State, frame: nat, get: Address, resume: Address)
    requires IdleAt(s, frame, get) && Aligned(resume) && s.subroutine == Return(resume)
    ensures PushWord(s, frame, get, ReturnWord()) == s.(frame := frame, subroutine := 0, get := resume)
  {
    hide Count, PushWord, Next, IsJump29, IsJump, IsCall, IsReturn, IsHeader, Target29, Target, InSubroutine, Return,
         Align;
    hide Jump29Word, JumpWord, CallWord, ReturnWord, Aligned29, Aligned32;
    ReturnBits();
    Returns(resume);
    ControlStep(s, frame, get, ReturnWord());
  }

  ghost predicate ValidItems(items: seq<Item>) {
    forall k :: 0 <= k < |items| ==> ValidItem(items[k])
  }

  ghost predicate NoCalls(items: seq<Item>) {
    forall k :: 0 <= k < |items| ==> !items[k].Call?
  }

  /** A call, its body and the matching return replay to the calls of the body, and the
      return resumes at the word after the call. */
  lemma {:induction false} CallReplays(s: State, clock: nat -> nat, j: nat, get: Address, item: Item)
    requires item.Call? && ValidItem(item) && IdleAt(s, clock(j), get) && Aligned(get) && Monotone(clock)
    requires !InSubroutine(s.subroutine)
    ensures var t := Feed(s, clock, j, Encode(item, get));
      && Replayed(s, t, clock(j + Words(item)), Next(get), Calls(item, clock, j)) && t.subroutine == 0
    decreases item, 0
  {
    hide Count, PushWord, Feed, Encode, InSubroutine, Return, Next, Target, EncodeAll, EndOfAll, AllCalls, ValidItem;
    var target, body := Target(item.target), item.body;
    ValidCall(item);
    EncodeCall(item, get);
    StaysAligned(get);
    TargetAligned(item.target);
    Returns(Next(get));
    var s1 := PushWord(s, clock(j), get, CallWord(item.target));
    CallStep(s, clock(j), get, item.target);
    var inner := EncodeAll(body, target, |body|);
    var end := EndOfAll(body, target, |body|);
    EncodeAllSize(body, target, |body|);
    AllReplay(s1, clock, j + 1, target, body, |body|);
    ReturnStep(Feed(s1, clock, j + 1, inner), clock(j + 1 + |inner|), end, Next(get));
    FeedAround(s, clock, j, (get, CallWord(item.target)), inner, (end, ReturnWord()));
  }

  lemma EncodeCall(item: Item, get: Address)
    requires item.Call?
    ensures Encode(item, get) == [(get, CallWord(item.target))] + EncodeAll(item.body, Target(item.target), |item.body|)
      + [(EndOfAll(item.body, Target(item.target), |item.body|), ReturnWord())]
  {
  }

  lemma ValidCall(item: Item)
    requires item.Call? && ValidItem(item)
    ensures Aligned32(item.target) && ValidItems(item.body) && NoCalls(item.body)
  {
  }

  lemma FeedAround(s: State, clock: nat -> nat, j: nat, before: (Address, Word), inner: seq<(Address, Word)>,
                   after: (Address, Word))
    ensures Feed(s, clock, j, [before] + inner + [after])
      == PushWord(Feed(PushWord(s, clock(j), before.0, before.1), clock, j + 1, inner), clock(j + 1 + |inner|),
                  after.0, after.1)
  {
    hide PushWord, Feed;
    FeedOne(s, clock, j, before.0, before.1);
    FeedConcat(s, clock, j, [before], inner);
    FeedConcat(s, clock, j, [before] + inner, [after]);
    FeedOne(Feed(s, clock, j, [before] + inner), clock, j + 1 + |inner|, after.0, after.1);
  }

  lemma {:induction false} ItemReplays(s: State, clock: nat -> nat, j: nat, get: Address, item: Item)
    requires ValidItem(item) && IdleAt(s, clock(j), get) && Aligned(get) && Monotone(clock)
    requires item.Call? ==> !InSubroutine(s.subroutine)
    ensures var t := Feed(s, clock, j, Encode(item, get));
      && Replayed(s, t, clock(j + Words(item)), EndOf(item, get), Calls(item, clock, j)) && Aligned(EndOf(item, get))
      && (if item.Call? then t.subroutine == 0 else t.subroutine == s.subroutine)
    decreases item, 1
  {
    hide Count, Feed, Encode, InSubroutine, AllCalls, PacketCalls, Behind;
    StaysAligned(get);
    match item
    case Packet(_, _, _, data) =>
      PacketReplays(s, clock, j, get, item);
      StaysAligned(Next(get));
      BehindAligned(Next(get), data);
    case Jump29(t) =>
      JumpReplays(s, clock, j, get, item);
    case Jump(t) =>
      JumpReplays(s, clock, j, get, item);
    case Call(_, _) =>
      CallReplays(s, clock, j, get, item);
  }

  lemma AllUnfolded(s: State, clock: nat -> nat, j: nat, get: Address, items: seq<Item>, n: nat)
    requires n <= |items|
    ensures n == 0 ==>
      && Feed(s, clock, j, EncodeAll(items, get, n)) == s && EndOfAll(items, get, n) == get
      && WordsOfAll(items, n) == 0 && AllCalls(items, clock, j, n) == []
    ensures n != 0 ==>
      var item, at := items[n - 1], EndOfAll(items, get, n - 1);
      && EncodeAll(items, get, n) == EncodeAll(items, get, n - 1) + Encode(item, at)
      && EndOfAll(items, get, n) == EndOf(item, at)
      && WordsOfAll(items, n) == WordsOfAll(items, n - 1) + Words(item)
      && AllCalls(items, clock, j, n)
        == AllCalls(items, clock, j, n - 1) + Calls(item, clock, j + WordsOfAll(items, n - 1))
  {
    hide PushWord, Encode, EndOf, Words, Calls;
  }

  /** Any list of packets, jumps and matched call/return pairs replays to exactly the calls
      it stands for, reports nothing, and ends idle. */
  lemma {:induction false} AllReplay(s: State, clock: nat -> nat, j: nat, get: Address, items: seq<Item>, n: nat)
    requires n <= |items| && ValidItems(items) && IdleAt(s, clock(j), get) && Aligned(get) && Monotone(clock)
    requires InSubroutine(s.subroutine) ==> NoCalls(items)
    ensures var t := Feed(s, clock, j, EncodeAll(items, get, n));
      && Replayed(s, t, clock(j + WordsOfAll(items, n)), EndOfAll(items, get, n), AllCalls(items, clock, j, n))
      && Aligned(EndOfAll(items, get, n))
      && (InSubroutine(s.subroutine) ==> t.subroutine == s.subroutine)
      && (InSubroutine(t.subroutine) ==> InSubroutine(s.subroutine))
    decreases items, n
  {
    hide Count, PushWord, InSubroutine, ValidItem, EndOf, Encode, Calls, Words, Feed, EncodeAll, EndOfAll, AllCalls,
         WordsOfAll, Monotone, Aligned;
    AllUnfolded(s, clock, j, get, items, n);
    if n != 0 {
      AllReplay(s, clock, j, get, items, n - 1);
      NotInSubroutine();
      var done := EncodeAll(items, get, n - 1);
      var t := Feed(s, clock, j, done);
      var at := EndOfAll(items, get, n - 1);
      EncodeAllSize(items, get, n - 1);
      ItemReplays(t, clock, j + |done|, at, items[n - 1]);
      FeedConcat(s, clock, j, done, Encode(items[n - 1], at));
    }
  }

  /** A run begun between packets at an aligned address, fed any stream of packets, jumps and
      matched call/return pairs, its words in frames that never go back: the decoded calls are
      exactly those of the stream in the frames of their data words, no address or packet error is
      reported, and the pusher ends idle behind the stream. */
  lemma EncodedStreamReplays(s: State, fields: RunFields, clock: nat -> nat, items: seq<Item>)
    requires ValidItems(items) && fields.frame <= clock(0) && Monotone(clock)
    requires Aligned(fields.get) && Count(fields.state) == 0
    requires InSubroutine(fields.subroutine) ==> NoCalls(items)
    ensures var t := Feed(BeginRun(s, fields), clock, 0, EncodeAll(items, fields.get, |items|));
      && t.methods == s.methods + AllCalls(items, clock, 0, |items|)
      && t.addressErrors == s.addressErrors && t.packetErrors == s.packetErrors
      && t.active && Count(t.state) == 0 && t.get == EndOfAll(items, fields.get, |items|)
  {
    hide Count, InSubroutine, Aligned, ValidItem, EncodeAll, EndOfAll, AllCalls, Feed;
    AllReplay(BeginRun(s, fields), clock, 0, fields.get, items, |items|);
  }
}
