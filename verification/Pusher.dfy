/** Replay of the push-buffer packet stream (nv2a_capture.py: PusherReplay) and the
    relocation-insensitive comparison (normalize_run_address, normalize_control_word,
    comparison_events). */
module Pusher {
  /** A 32-bit word taken apart by its bits. */
  type Word = bv32

  /** A 32-bit address. */
  type Address = a: int | 0 <= a < 0x1_0000_0000

  /** A decoded method call: frame, subchannel, method, data. */
  datatype Method = Method(frame: nat, subchannel: Word, method_: Word, data: Word)

  datatype AddressError = AddressError(frame: nat, fetched: Address, expected: Address)

  datatype PacketError =
    | NotActive
    | FrameBackwards(previous: nat, frame: nat)
    | NestedCall
    | ReturnWithoutCall
    | ReservedWord(word: Word)

  /** The fields of a push-run record. */
  datatype RunFields = RunFields(frame: nat, hostMode: bool, base: Address, get: Address, put: Address, state: Word,
                                 dcount: Word, subroutine: Address, limit: Address)

  datatype State = State(state: Word, get: Address, put: Address, subroutine: Address, active: bool, frame: nat,
                         methods: seq<Method>, addressErrors: seq<AddressError>, packetErrors: seq<PacketError>)

  const METHOD_MASK: Word := 0x1FFC
  const SUBCHANNEL_MASK: Word := 0xE000
  const COUNT_MASK: Word := 0x1FFC_0000

  /** Data words still expected by the current packet. */
  function Count(state: Word): Word {
    (state & COUNT_MASK) >> 18
  }

  predicate IsJump29(word: Word) { word & 0xE000_0003 == 0x2000_0000 }
  predicate IsJump(word: Word) { word & 3 == 1 }
  predicate IsCall(word: Word) { word & 3 == 2 }
  predicate IsReturn(word: Word) { word == 0x0002_0000 }
  predicate IsHeader(word: Word) { word & 0xE003_0003 == 0 || word & 0xE003_0003 == 0x4000_0000 }

  function MethodOf(state: Word): Word { state & METHOD_MASK }
  function SubchannelOf(state: Word): Word { (state & SUBCHANNEL_MASK) >> 13 }
  function Target29(word: Word): Address { (word & 0x1FFF_FFFC) as int }
  function Target(word: Word): Address { (word & 0xFFFF_FFFC) as int }

  /** An address without its two low bits. */
  function Align(address: Address): Address { address - address % 4 }
  function Return(get: Address): Address { Align(get) + 1 }
  predicate InSubroutine(subroutine: Address) { subroutine % 2 == 1 }
  function Next(address: Address): Address { (address + 4) % 0x1_0000_0000 }

  /** The state word after one data word of a packet. */
  function AfterData(state: Word): Word {
    var advanced := if state & 1 == 0 then (state & METHOD_MASK) + 4 else state & METHOD_MASK;
    (state & !(METHOD_MASK | COUNT_MASK)) | (advanced & METHOD_MASK) | (((Count(state) - 1) << 18) & COUNT_MASK)
  }

  /** The state word after a packet header. */
  function AfterHeader(state: Word, word: Word): Word {
    (state & 0xE000_0000) | (word & (METHOD_MASK | SUBCHANNEL_MASK | COUNT_MASK))
    | if word & 0xE003_0003 == 0 then 0 else 1
  }

  /** What a control word does once the read pointer stands behind it. */
  function Control(s: State, word: Word): State {
    if IsJump29(word) then s.(get := Target29(word))
    else if IsJump(word) then s.(get := Target(word))
    else if IsCall(word) then
      if InSubroutine(s.subroutine) then s.(packetErrors := s.packetErrors + [NestedCall])
      else s.(subroutine := Return(s.get), get := Target(word))
    else if IsReturn(word) then
      if !InSubroutine(s.subroutine) then s.(packetErrors := s.packetErrors + [ReturnWithoutCall])
      else s.(get := Align(s.subroutine), subroutine := 0)
    else if IsHeader(word) then s.(state := AfterHeader(s.state, word))
    else s.(packetErrors := s.packetErrors + [ReservedWord(word)])
  }

  /** The state after a word has been fetched at `address`. */
  function Fetched(s: State, frame: nat, address: Address): State {
    var s1 := if frame < s.frame then s.(packetErrors := s.packetErrors + [FrameBackwards(s.frame, frame)])
              else s.(frame := frame);
    var s2 := if address != s.get then s1.(addressErrors := s1.addressErrors + [AddressError(frame, address, s.get)])
              else s1;
    s2.(get := Next(address))
  }

  /** The data word of a packet becomes a method call. */
  function Data(s: State, frame: nat, word: Word): State {
    s.(methods := s.methods + [Method(frame, SubchannelOf(s.state), MethodOf(s.state), word)],
       state := AfterData(s.state))
  }

  function PushWord(s: State, frame: nat, address: Address, word: Word): State {
    if !s.active then s.(packetErrors := s.packetErrors + [NotActive])
    else
      var f := Fetched(s, frame, address);
      if Count(s.state) != 0 then Data(f, frame, word) else Control(f, word)
  }

  function BeginRun(s: State, fields: RunFields): State {
    s.(frame := fields.frame, get := fields.get, put := fields.put, state := fields.state,
       subroutine := fields.subroutine, active := true)
  }

  class PusherReplay {
    var state: Word
    var get: Address
    var put: Address
    var subroutine: Address
    var active: bool
    var frame: nat
    var methods: seq<Method>
    var addressErrors: seq<AddressError>
    var packetErrors: seq<PacketError>

    ghost function View(): State
      reads this
    {
      State(state, get, put, subroutine, active, frame, methods, addressErrors, packetErrors)
    }

    constructor ()
      ensures View() == State(0, 0, 0, 0, false, 0, [], [], [])
    {
      state, get, put, subroutine, active, frame := 0, 0, 0, 0, false, 0;
      methods, addressErrors, packetErrors := [], [], [];
    }

    method Begin(fields: RunFields)
      modifies this
      ensures View() == BeginRun(old(View()), fields)
    {
      frame, get, put, state, subroutine := fields.frame, fields.get, fields.put, fields.state, fields.subroutine;
      active := true;
    }

    method Push(frame: nat, address: Address, word: Word)
      modifies this
      ensures View() == PushWord(old(View()), frame, address, word)
    {
      hide Count, Data, Control, Fetched;
      if !active {
        packetErrors := packetErrors + [NotActive];
      } else {
        var inPacket := Count(state) != 0;
        Fetch(frame, address);
        if inPacket {
          PushData(frame, word);
        } else {
          PushControl(word);
        }
      }
    }

    /** Check frame and address of a fetched word and advance the read pointer. */
    method Fetch(frame: nat, address: Address)
      modifies this`frame, this`get, this`addressErrors, this`packetErrors
      ensures View() == Fetched(old(View()), frame, address)
    {
      hide Next;
      if frame < this.frame {
        packetErrors := packetErrors + [FrameBackwards(this.frame, frame)];
      } else {
        this.frame := frame;
      }
      if address != get {
        addressErrors := addressErrors + [AddressError(frame, address, get)];
      }
      get := Next(address);
    }

    /** The data word of a packet. */
    method PushData(frame: nat, word: Word)
      modifies this`methods, this`state
      ensures View() == Data(old(View()), frame, word)
    {
      hide AfterData, MethodOf, SubchannelOf;
      methods := methods + [Method(frame, SubchannelOf(state), MethodOf(state), word)];
      state := AfterData(state);
    }

    /** A word between packets. */
    method PushControl(word: Word)
      modifies this`get, this`subroutine, this`state, this`packetErrors
      ensures View() == Control(old(View()), word)
    {
      hide AfterHeader, IsJump29, IsJump, IsCall, IsReturn, IsHeader, Target29, Target, Return, InSubroutine, Align;
      if IsJump29(word) {
        get := Target29(word);
      } else if IsJump(word) {
        get := Target(word);
      } else if IsCall(word) {
        if InSubroutine(subroutine) {
          packetErrors := packetErrors + [NestedCall];
        } else {
          subroutine := Return(get);
          get := Target(word);
        }
      } else if IsReturn(word) {
        if !InSubroutine(subroutine) {
          packetErrors := packetErrors + [ReturnWithoutCall];
        } else {
          get := Align(subroutine);
          subroutine := 0;
        }
      } else if IsHeader(word) {
        state := AfterHeader(state, word);
      } else {
        packetErrors := packetErrors + [ReservedWord(word)];
      }
    }
  }
}
