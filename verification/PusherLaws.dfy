/** What every fetched word does to the pusher, the reported errors included, in plain terms
    (nv2a_capture.py: begin_run, push_word). */
module PusherLaws {
  import opened Pusher

  /** A run record takes over frame, read and write pointer, state word and subroutine register,
      activates the pusher and keeps what was decoded and reported. */
  lemma BeginExactly(s: State, fields: RunFields)
    ensures var t := BeginRun(s, fields);
      && t.frame == fields.frame && t.get == fields.get && t.put == fields.put && t.state == fields.state
      && t.subroutine == fields.subroutine && t.active
      && t.methods == s.methods && t.addressErrors == s.addressErrors && t.packetErrors == s.packetErrors
  {
  }

  /** Before the first run record a word is reported and has no other effect. */
  lemma InactiveRefused(s: State, frame: nat, address: Address, word: Word)
    requires !s.active
    ensures var t := PushWord(s, frame, address, word);
      && t.packetErrors == s.packetErrors + [NotActive]
      && t.addressErrors == s.addressErrors && t.methods == s.methods && t.get == s.get && t.put == s.put
      && t.state == s.state && t.subroutine == s.subroutine && t.frame == s.frame && !t.active
  {
  }

  /** What a fetch reports of the frame it happened in. */
  ghost predicate FrameReported(s: State, frame: nat, reported: seq<PacketError>) {
    if s.frame <= frame then reported == [] else reported == [FrameBackwards(s.frame, frame)]
  }

  lemma FetchKeeps(s: State, frame: nat, address: Address)
    ensures var f := Fetched(s, frame, address);
      && f.active == s.active && f.put == s.put && f.frame == (if s.frame <= frame then frame else s.frame)
      && (address == s.get ==> f.addressErrors == s.addressErrors)
      && (address != s.get ==> f.addressErrors == s.addressErrors + [AddressError(frame, address, s.get)])
    ensures exists reported ::
      FrameReported(s, frame, reported) && Fetched(s, frame, address).packetErrors == s.packetErrors + reported
  {
    hide Next;
    var reported := if s.frame <= frame then [] else [FrameBackwards(s.frame, frame)];
    assert FrameReported(s, frame, reported);
    assert s.packetErrors + [] == s.packetErrors;
  }

  lemma DataKeeps(f: State, frame: nat, word: Word)
    ensures var t := Data(f, frame, word);
      && t.active == f.active && t.put == f.put && t.frame == f.frame && t.addressErrors == f.addressErrors
      && t.packetErrors == f.packetErrors
  {
  }

  lemma ControlKeeps(f: State, word: Word)
    ensures var t := Control(f, word);
      && t.active == f.active && t.put == f.put && t.frame == f.frame && t.addressErrors == f.addressErrors
      && f.packetErrors <= t.packetErrors
  {
    hide AfterHeader, IsJump29, IsJump, IsCall, IsReturn, IsHeader, Target29, Target, Return, Align, InSubroutine;
  }

  /** Every fetch remembers the latest frame seen, reports a frame that goes back with both
      frames and an address other than the read pointer with both addresses, whatever the word is. */
  lemma FetchExactly(s: State, frame: nat, address: Address, word: Word)
    requires s.active
    ensures var t := PushWord(s, frame, address, word);
      && t.active && t.put == s.put
      && t.frame == (if s.frame <= frame then frame else s.frame)
      && (address == s.get ==> t.addressErrors == s.addressErrors)
      && (address != s.get ==> t.addressErrors == s.addressErrors + [AddressError(frame, address, s.get)])
    ensures exists reported ::
      && FrameReported(s, frame, reported)
      && s.packetErrors + reported <= PushWord(s, frame, address, word).packetErrors
  {
    hide Count, Data, Control, Fetched;
    FetchKeeps(s, frame, address);
    var f := Fetched(s, frame, address);
    DataKeeps(f, frame, word);
    ControlKeeps(f, word);
    var reported :| FrameReported(s, frame, reported) && f.packetErrors == s.packetErrors + reported;
    assert FrameReported(s, frame, reported);
    assert s.packetErrors + reported <= PushWord(s, frame, address, word).packetErrors;
  }

  /** What a word reports after the fetch itself, and the state it leaves. */
  ghost predicate Leaves(s: State, frame: nat, address: Address, word: Word, get: Address, subroutine: Address,
                         methods: seq<Method>, reported: seq<PacketError>) {
    var t := PushWord(s, frame, address, word);
    && t.get == get && t.subroutine == subroutine && t.methods == s.methods + methods
    && exists first :: FrameReported(s, frame, first) && t.packetErrors == s.packetErrors + first + reported
  }

  /** The address behind a fetched word. */
  function Behind(address: Address): Address {
    if address < 0xFFFF_FFFC then address + 4 else address - 0xFFFF_FFFC
  }

  lemma BehindIsNext(address: Address)
    ensures Behind(address) == Next(address)
  {
  }

  lemma Left(s: State, frame: nat, address: Address, word: Word, methods: seq<Method>, reported: seq<PacketError>)
    requires s.active
    requires var f := Fetched(s, frame, address);
      var t := PushWord(s, frame, address, word);
      t.methods == f.methods + methods && t.packetErrors == f.packetErrors + reported
    ensures var t := PushWord(s, frame, address, word);
      Leaves(s, frame, address, word, t.get, t.subroutine, methods, reported)
  {
    hide PushWord, Next;
    var first := if s.frame <= frame then [] else [FrameBackwards(s.frame, frame)];
    assert FrameReported(s, frame, first);
    assert Fetched(s, frame, address).packetErrors == s.packetErrors + first;
  }

  // ---- Words of a packet ----

  /** Bits `low` to `low + width - 1` of a word. */
  function Bits(word: Word, low: bv6, mask: Word): Word
    requires low <= 32
  {
    (word >> low) & mask
  }

  /** While a packet expects data (bits 18 to 28), a word becomes a call of the method in bits 2 to 12
      on the subchannel in bits 13 to 15; nothing but the counter and the method changes. */
  lemma DataExactly(s: State, frame: nat, address: Address, word: Word)
    requires s.active && Bits(s.state, 18, 0x7FF) != 0
    ensures Leaves(s, frame, address, word, Behind(address), s.subroutine,
                   [Method(frame, Bits(s.state, 13, 7), 4 * Bits(s.state, 2, 0x7FF), word)], [])
    ensures PushWord(s, frame, address, word).state == AfterData(s.state)
  {
    hide AfterData, Next, Behind;
    BehindIsNext(address);
    CountBits(s.state);
    CallBits(s.state);
    hide Count, MethodOf, SubchannelOf, Bits, Leaves;
    var f := Fetched(s, frame, address);
    var call := Method(frame, Bits(s.state, 13, 7), 4 * Bits(s.state, 2, 0x7FF), word);
    assert f.packetErrors + [] == f.packetErrors;
    Left(s, frame, address, word, [call], []);
  }

  lemma CountBits(state: Word)
    ensures Count(state) == Bits(state, 18, 0x7FF)
  {
  }

  lemma CallBits(state: Word)
    ensures SubchannelOf(state) == Bits(state, 13, 7) && MethodOf(state) == 4 * Bits(state, 2, 0x7FF)
  {
  }

  /** After a data word one fewer is expected; the method moves on by four bytes unless bit 0 is set,
      and every other bit stays. */
  lemma DataCounts(state: Word)
    requires Bits(state, 18, 0x7FF) != 0
    ensures var after := AfterData(state);
      && Bits(after, 18, 0x7FF) == Bits(state, 18, 0x7FF) - 1
      && Bits(after, 29, 7) == Bits(state, 29, 7) && Bits(after, 13, 0x1F) == Bits(state, 13, 0x1F)
      && Bits(after, 0, 3) == Bits(state, 0, 3)
  {
  }

  lemma DataMethod(state: Word)
    requires Bits(state, 18, 0x7FF) != 0
    ensures Bits(state, 0, 1) == 1 ==> Bits(AfterData(state), 2, 0x7FF) == Bits(state, 2, 0x7FF)
    ensures Bits(state, 0, 1) == 0 ==> Bits(AfterData(state), 2, 0x7FF) == (Bits(state, 2, 0x7FF) + 1) & 0x7FF
  {
  }

  // ---- Words between packets ----

  /** Top three bits 001, low bits 00: the read pointer moves to the lower 29 bits. */
  lemma OldJumpExactly(s: State, frame: nat, address: Address, word: Word)
    requires s.active && Bits(s.state, 18, 0x7FF) == 0
    requires Bits(word, 29, 7) == 1 && Bits(word, 0, 3) == 0
    ensures Leaves(s, frame, address, word, (word - 0x2000_0000) as int, s.subroutine, [], [])
    ensures PushWord(s, frame, address, word).state == s.state
  {
    CountBits(s.state);
    OldJumpBits(word);
    hide Count, Bits, Next, IsJump29, Target29;
    Nothing(s, frame, address);
    Left(s, frame, address, word, [], []);
  }

  lemma OldJumpBits(word: Word)
    requires Bits(word, 29, 7) == 1 && Bits(word, 0, 3) == 0
    ensures IsJump29(word) && Target29(word) == (word - 0x2000_0000) as int
  {
    assert word & 0x1FFF_FFFC == word - 0x2000_0000;
  }

  lemma Nothing(s: State, frame: nat, address: Address)
    ensures var f := Fetched(s, frame, address);
      f.methods + [] == f.methods && f.packetErrors + [] == f.packetErrors
  {
  }

  /** Low bits 01: the read pointer moves to the word without them. */
  lemma JumpExactly(s: State, frame: nat, address: Address, word: Word)
    requires s.active && Bits(s.state, 18, 0x7FF) == 0 && Bits(word, 0, 3) == 1
    ensures Leaves(s, frame, address, word, (word - 1) as int, s.subroutine, [], [])
    ensures PushWord(s, frame, address, word).state == s.state
  {
    CountBits(s.state);
    JumpBits(word);
    hide Count, Bits, Next, IsJump29, IsJump, Target;
    Nothing(s, frame, address);
    Left(s, frame, address, word, [], []);
  }

  lemma JumpBits(word: Word)
    requires Bits(word, 0, 3) == 1
    ensures !IsJump29(word) && IsJump(word) && Target(word) == (word - 1) as int
  {
    assert word & 0xFFFF_FFFC == word - 1;
  }

  /** Low bits 10: outside a subroutine the read pointer moves to the word without them, and the
      subroutine register remembers the address behind the call, marked by its bit 0; inside one
      the call is reported and skipped. */
  lemma CallExactly(s: State, frame: nat, address: Address, word: Word)
    requires s.active && Bits(s.state, 18, 0x7FF) == 0 && Bits(word, 0, 3) == 2
    ensures s.subroutine % 2 == 1 ==>
      Leaves(s, frame, address, word, Behind(address), s.subroutine, [], [NestedCall])
    ensures s.subroutine % 2 == 0 ==>
      Leaves(s, frame, address, word, (word - 2) as int, Behind(address) / 4 * 4 + 1, [], [])
    ensures PushWord(s, frame, address, word).state == s.state
  {
    CountBits(s.state);
    CallWordBits(word);
    BehindIsNext(address);
    hide Count, Bits, Next, Behind, IsJump29, IsJump, IsCall, Target, Leaves;
    Nothing(s, frame, address);
    Left(s, frame, address, word, [], if s.subroutine % 2 == 1 then [NestedCall] else []);
  }

  lemma CallWordBits(word: Word)
    requires Bits(word, 0, 3) == 2
    ensures !IsJump29(word) && !IsJump(word) && IsCall(word) && Target(word) == (word - 2) as int
  {
    assert word & 0xFFFF_FFFC == word - 2;
  }

  /** The word 0x20000: inside a subroutine the read pointer goes back to the remembered address,
      which is forgotten; outside one the return is reported and skipped. */
  lemma ReturnExactly(s: State, frame: nat, address: Address)
    requires s.active && Bits(s.state, 18, 0x7FF) == 0
    ensures s.subroutine % 2 == 0 ==>
      Leaves(s, frame, address, 0x2_0000, Behind(address), s.subroutine, [], [ReturnWithoutCall])
    ensures s.subroutine % 2 == 1 ==>
      Leaves(s, frame, address, 0x2_0000, s.subroutine / 4 * 4, 0, [], [])
    ensures PushWord(s, frame, address, 0x2_0000).state == s.state
  {
    CountBits(s.state);
    ReturnBits();
    BehindIsNext(address);
    hide Count, Bits, Next, Behind, IsJump29, IsJump, IsCall, IsReturn, Leaves;
    Nothing(s, frame, address);
    Left(s, frame, address, 0x2_0000, [], if s.subroutine % 2 == 0 then [ReturnWithoutCall] else []);
  }

  lemma ReturnBits()
    ensures !IsJump29(0x2_0000) && !IsJump(0x2_0000) && !IsCall(0x2_0000) && IsReturn(0x2_0000)
  {
  }

  /** A packet header: low bits and bits 16 and 17 clear, top three bits 000 or 010. */
  ghost predicate Header(word: Word) {
    Bits(word, 0, 3) == 0 && Bits(word, 16, 3) == 0 && (Bits(word, 29, 7) == 0 || Bits(word, 29, 7) == 2)
  }

  /** A packet header loads counter, subchannel and method; bit 0 says that the method stays, and
      only the top three bits are kept. */
  lemma HeaderExactly(s: State, frame: nat, address: Address, word: Word)
    requires s.active && Bits(s.state, 18, 0x7FF) == 0 && Header(word)
    ensures Leaves(s, frame, address, word, Behind(address), s.subroutine, [], [])
    ensures var after := PushWord(s, frame, address, word).state;
      && Bits(after, 2, 0x3FFF) == Bits(word, 2, 0x3FFF) && Bits(after, 18, 0x7FF) == Bits(word, 18, 0x7FF)
      && Bits(after, 29, 7) == Bits(s.state, 29, 7) && Bits(after, 16, 3) == 0
      && Bits(after, 0, 3) == (if Bits(word, 29, 7) == 0 then 0 else 1)
  {
    HeaderStep(s, frame, address, word);
    HeaderLoads(s.state, word);
    HeaderCounts(s.state, word);
    HeaderKeeps(s.state, word);
    hide Bits, PushWord, Leaves, Behind, AfterHeader, Header;
  }

  lemma HeaderStep(s: State, frame: nat, address: Address, word: Word)
    requires s.active && Bits(s.state, 18, 0x7FF) == 0 && Header(word)
    ensures Leaves(s, frame, address, word, Behind(address), s.subroutine, [], [])
    ensures PushWord(s, frame, address, word).state == AfterHeader(s.state, word)
  {
    CountBits(s.state);
    HeaderBits(word);
    BehindIsNext(address);
    hide Header, Count, Bits, Next, Behind, IsJump29, IsJump, IsCall, IsReturn, IsHeader, AfterHeader, Leaves;
    Nothing(s, frame, address);
    Left(s, frame, address, word, [], []);
  }

  lemma HeaderBits(word: Word)
    requires Header(word)
    ensures !IsJump29(word) && !IsJump(word) && !IsCall(word) && !IsReturn(word) && IsHeader(word)
  {
  }

  lemma HeaderLoads(state: Word, word: Word)
    ensures Bits(AfterHeader(state, word), 2, 0x3FFF) == Bits(word, 2, 0x3FFF)
  {
    hide Bits, AfterHeader, Header;
    MiddleLoaded(state, word);
    MiddleBits(AfterHeader(state, word));
    MiddleBits(word);
  }

  /** The header takes its bits from the word. */
  lemma MiddleLoaded(state: Word, word: Word)
    ensures AfterHeader(state, word) & 0xFFFC == word & 0xFFFC
  {
    hide AfterHeader;
    MiddleRising(state, word);
    MiddleStaying(state, word);
  }

  lemma MiddleRising(state: Word, word: Word)
    ensures word & 0xE003_0003 == 0 ==> AfterHeader(state, word) & 0xFFFC == word & 0xFFFC
  {
  }

  lemma MiddleStaying(state: Word, word: Word)
    ensures word & 0xE003_0003 != 0 ==> AfterHeader(state, word) & 0xFFFC == word & 0xFFFC
  {
  }

  lemma UpperLoaded(state: Word, word: Word)
    ensures AfterHeader(state, word) & 0x1FFC_0000 == word & 0x1FFC_0000
  {
    hide AfterHeader;
    UpperRising(state, word);
    UpperStaying(state, word);
  }

  lemma UpperRising(state: Word, word: Word)
    ensures word & 0xE003_0003 == 0 ==> AfterHeader(state, word) & 0x1FFC_0000 == word & 0x1FFC_0000
  {
  }

  lemma UpperStaying(state: Word, word: Word)
    ensures word & 0xE003_0003 != 0 ==> AfterHeader(state, word) & 0x1FFC_0000 == word & 0x1FFC_0000
  {
  }

  lemma HeaderCounts(state: Word, word: Word)
    ensures Bits(AfterHeader(state, word), 18, 0x7FF) == Bits(word, 18, 0x7FF)
  {
    hide Bits, AfterHeader, Header;
    UpperLoaded(state, word);
    UpperBits(AfterHeader(state, word));
    UpperBits(word);
  }

  lemma MiddleBits(word: Word)
    ensures Bits(word, 2, 0x3FFF) == (word & 0xFFFC) >> 2
  {
  }

  lemma UpperBits(word: Word)
    ensures Bits(word, 18, 0x7FF) == (word & 0x1FFC_0000) >> 18
  {
  }

  lemma HeaderKeeps(state: Word, word: Word)
    requires Header(word)
    ensures var after := AfterHeader(state, word);
      && Bits(after, 29, 7) == Bits(state, 29, 7) && Bits(after, 16, 3) == 0
      && Bits(after, 0, 3) == (if Bits(word, 29, 7) == 0 then 0 else 1)
  {
  }

  /** The words that mean none of the above. */
  ghost predicate Reserved(word: Word) {
    && (Bits(word, 0, 3) == 0 || Bits(word, 0, 3) == 3) && word != 0x2_0000 && !Header(word)
    && !(Bits(word, 29, 7) == 1 && Bits(word, 0, 3) == 0)
  }

  /** A word that means nothing is reported and skipped. */
  lemma ReservedExactly(s: State, frame: nat, address: Address, word: Word)
    requires s.active && Bits(s.state, 18, 0x7FF) == 0 && Reserved(word)
    ensures Leaves(s, frame, address, word, Behind(address), s.subroutine, [], [ReservedWord(word)])
    ensures PushWord(s, frame, address, word).state == s.state
  {
    CountBits(s.state);
    ReservedBits(word);
    BehindIsNext(address);
    hide Count, Bits, Next, Behind, IsJump29, IsJump, IsCall, IsReturn, IsHeader, Leaves;
    Nothing(s, frame, address);
    Left(s, frame, address, word, [], [ReservedWord(word)]);
  }

  lemma ReservedBits(word: Word)
    requires Reserved(word)
    ensures !IsJump29(word) && !IsJump(word) && !IsCall(word) && !IsReturn(word) && !IsHeader(word)
  {
  }
}
