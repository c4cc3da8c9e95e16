/** Which captures the comparison accepts, told from their records (nv2a_capture.py: analyze_capture,
    PusherReplay). */
module PusherCaptures {
  import opened Pusher
  import opened PusherProofs
  import opened PusherRelocation
  import PusherLaws

  // ---- What makes a capture unacceptable ----

  /** Record `n` adds nothing to the errors. */
  ghost predicate Quiet(events: seq<Event>, n: nat)
    requires n < |events|
  {
    var s, t := After(events, n).replay, After(events, n + 1).replay;
    t.addressErrors == s.addressErrors && t.packetErrors == s.packetErrors
  }

  /** Errors stay reported. */
  lemma ErrorsStay(s: State, frame: nat, address: Address, word: Word)
    ensures var t := PushWord(s, frame, address, word);
      s.addressErrors <= t.addressErrors && s.packetErrors <= t.packetErrors
  {
    hide PushWord, Next;
    if s.active {
      PusherLaws.FetchExactly(s, frame, address, word);
      var reported :| s.packetErrors + reported <= PushWord(s, frame, address, word).packetErrors;
      assert s.packetErrors <= s.packetErrors + reported;
    } else {
      PusherLaws.InactiveRefused(s, frame, address, word);
    }
  }

  lemma AfterNext(events: seq<Event>, n: nat)
    requires n < |events|
    ensures After(events, n + 1) == Advance(After(events, n), events[n])
  {
    hide Advance;
  }

  lemma Grows(events: seq<Event>, n: nat)
    requires n < |events|
    ensures var s, t := After(events, n).replay, After(events, n + 1).replay;
      s.addressErrors <= t.addressErrors && s.packetErrors <= t.packetErrors
  {
    hide PushWord, After;
    AfterNext(events, n);
    if events[n].Fetch? {
      ErrorsStay(After(events, n).replay, events[n].frame, events[n].address, events[n].word);
    }
  }

  lemma {:induction false} NoErrors(events: seq<Event>, n: nat)
    requires n <= |events|
    ensures var t := After(events, n).replay;
      t.addressErrors == [] && t.packetErrors == [] <==> forall k :: 0 <= k < n ==> Quiet(events, k)
  {
    hide Advance;
    if n > 0 {
      NoErrors(events, n - 1);
      Grows(events, n - 1);
      assert (forall k :: 0 <= k < n ==> Quiet(events, k))
        <==> (forall k :: 0 <= k < n - 1 ==> Quiet(events, k)) && Quiet(events, n - 1);
    }
  }

  /** A capture is accepted if and only if no record of it reports anything and the calls decoded from
      its words are the recorded ones. */
  lemma AcceptedExactly(events: seq<Event>)
    ensures Accepted(events) <==>
      && (forall n :: 0 <= n < |events| ==> Quiet(events, n))
      && After(events, |events|).replay.methods == RecordedCalls(events, |events|)
  {
    hide After, Quiet;
    NoErrors(events, |events|);
  }

  /** A single word from the wrong address makes a capture unacceptable, whatever comes later. */
  lemma WrongAddressRejected(events: seq<Event>, n: nat)
    requires n < |events| && events[n].Fetch?
    requires After(events, n).replay.active && events[n].address != After(events, n).replay.get
    ensures !Accepted(events)
  {
    hide After, PushWord;
    AfterNext(events, n);
    PusherLaws.FetchExactly(After(events, n).replay, events[n].frame, events[n].address, events[n].word);
    assert !Quiet(events, n);
    AcceptedExactly(events);
  }

  // ---- Captures of encoded streams ----

  function Fetches(events: seq<Event>, n: nat): nat
    requires n <= |events|
  {
    if n == 0 then 0 else Fetches(events, n - 1) + if events[n - 1].Fetch? then 1 else 0
  }

  /** One run whose fetched words are `ws`, word `j` in frame `clock(j)`, among other records. */
  ghost predicate Captures(events: seq<Event>, fields: RunFields, ws: seq<(Address, Word)>, clock: nat -> nat) {
    && events != [] && events[0] == Run(fields) && Fetches(events, |events|) == |ws|
    && forall n :: 0 < n < |events| ==> CapturesAt(events, ws, clock, n)
  }

  ghost predicate CapturesAt(events: seq<Event>, ws: seq<(Address, Word)>, clock: nat -> nat, n: nat)
    requires n < |events|
  {
    && !events[n].Run?
    && (events[n].Fetch? ==>
          var j := Fetches(events, n);
          j < |ws| && events[n] == Fetch(clock(j), ws[j].0, ws[j].1))
  }

  lemma FeedNext(s: State, clock: nat -> nat, ws: seq<(Address, Word)>, j: nat)
    requires j < |ws|
    ensures Feed(s, clock, 0, ws[..j + 1]) == PushWord(Feed(s, clock, 0, ws[..j]), clock(j), ws[j].0, ws[j].1)
  {
    hide PushWord;
    assert ws[..j + 1][..j] == ws[..j];
  }

  lemma {:induction false} CaptureFeeds(events: seq<Event>, fields: RunFields, ws: seq<(Address, Word)>,
                                        clock: nat -> nat, n: nat)
    requires Captures(events, fields, ws, clock) && 0 < n <= |events|
    ensures Fetches(events, n) <= |ws|
    ensures After(events, n).replay == Feed(BeginRun(START.replay, fields), clock, 0, ws[..Fetches(events, n)])
  {
    hide PushWord, BeginRun;
    AfterNext(events, n - 1);
    if n == 1 {
      assert Fetches(events, 1) == 0 && After(events, 0) == START;
      assert ws[..0] == [];
    } else {
      CaptureFeeds(events, fields, ws, clock, n - 1);
      assert CapturesAt(events, ws, clock, n - 1);
      if events[n - 1].Fetch? {
        FeedNext(BeginRun(START.replay, fields), clock, ws, Fetches(events, n - 1));
      }
    }
  }

  /** A capture of any encoded stream, its records in any frames that never go back and among any
      others, is accepted if and only if the calls it recorded are exactly those of the stream. */
  lemma EncodedCaptureAccepted(events: seq<Event>, fields: RunFields, clock: nat -> nat, items: seq<Item>)
    requires ValidItems(items) && fields.frame <= clock(0) && Monotone(clock)
    requires Aligned(fields.get) && Count(fields.state) == 0
    requires InSubroutine(fields.subroutine) ==> NoCalls(items)
    requires Captures(events, fields, EncodeAll(items, fields.get, |items|), clock)
    ensures Accepted(events) <==> RecordedCalls(events, |events|) == AllCalls(items, clock, 0, |items|)
  {
    hide After, Feed, EncodeAll, AllCalls, ValidItems, Monotone, Aligned, Count, InSubroutine, NoCalls, EndOfAll,
         RecordedCalls, Captures;
    var ws := EncodeAll(items, fields.get, |items|);
    assert events != [] && Fetches(events, |events|) == |ws| by { CaptureWhole(events, fields, ws, clock); }
    CaptureFeeds(events, fields, ws, clock, |events|);
    assert ws[..|ws|] == ws;
    EncodedStreamReplays(START.replay, fields, clock, items);
  }

  lemma CaptureWhole(events: seq<Event>, fields: RunFields, ws: seq<(Address, Word)>, clock: nat -> nat)
    requires Captures(events, fields, ws, clock)
    ensures events != [] && Fetches(events, |events|) == |ws|
  {
  }
}
