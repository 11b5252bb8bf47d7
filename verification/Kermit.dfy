/** What the Kermit receiver makes of the packets it gets (u-boot-v1.2/common/cmd_load.c). */
module Kermit {
  import opened Basics

  const START_CHAR: Byte := 0x01
  const ETX_CHAR: Byte := 0x03
  const END_CHAR: Byte := 0x0d
  const K_ESCAPE: Byte := 0x23
  const SEND_TYPE: Byte := 0x53
  const DATA_TYPE: Byte := 0x44
  const ACK_TYPE: Byte := 0x59
  const NACK_TYPE: Byte := 0x4e
  const BREAK_TYPE: Byte := 0x42
  const SEND_DATA_SIZE: nat := 20

  // ---------------------------------------------------------------- characters

  function ToChar(x: int): Byte {
    (x + 0x20) % 256
  }

  function UnChar(c: Byte): Byte {
    (c - 0x20) % 256
  }

  /** The one-character block check of a sum. */
  function Check(sum: nat): nat {
    (sum + (sum / 64) % 4) % 64
  }

  /** None of the three upper bits is set. */
  predicate Control(c: Byte) {
    c < 0x20
  }

  function Ktrans(c: Byte): Byte {
    if (c / 32) % 4 == 2 then c - 0x40 else if c % 128 == 0x3f then c + 0x40 else c
  }

  /** The arithmetic above in the bits the program tests and sets. */
  lemma CharacterBits(c: bv8)
    ensures Control(c as int) <==> c & 0xe0 == 0
    ensures Ktrans(c as int) ==
            (if c & 0x60 == 0x40 then c & !0x40 else if c & 0x7f == 0x3f then c | 0x40 else c) as int
  {
  }

  // ---------------------------------------------------------------- decoding

  /** The escape translation: whether the last character was a quote, and the bytes put into memory. */
  datatype Decoder = Decoder(escape: bool, bytes: seq<Byte>)

  function FeedChar(d: Decoder, quote: Byte, c: Byte): Decoder {
    if d.escape then Decoder(false, d.bytes + [Ktrans(c)])
    else if c == quote then Decoder(true, d.bytes)
    else Decoder(false, d.bytes + [c])
  }

  function Feed(d: Decoder, quote: Byte, chars: seq<Byte>): (r: Decoder)
    ensures |r.bytes| <= |d.bytes| + |chars| && d.bytes <= r.bytes
  {
    if chars == [] then d else FeedChar(Feed(d, quote, chars[..|chars| - 1]), quote, chars[|chars| - 1])
  }

  lemma {:induction false} FeedJoin(d: Decoder, quote: Byte, a: seq<Byte>, b: seq<Byte>)
    ensures Feed(d, quote, a + b) == Feed(Feed(d, quote, a), quote, b)
  {
    if b == [] {
      assert a + b == a;
    } else {
      FeedJoin(d, quote, a, b[..|b| - 1]);
      assert (a + b)[..|a + b| - 1] == a + b[..|b| - 1];
    }
  }

  // ---------------------------------------------------------------- packets as they arrive

  /** What one packet amounts to: an error before its sequence number, an error after it, or a packet that passed its
      checks. */
  datatype Event = Early | Bad(n: Byte) | Good(n: Byte, kind: Byte, payload: seq<Byte>)

  /** The sender's wishes, as his last send-initiate packet gave them. */
  datatype Parms = Parms(eol: Byte, padCount: Byte, padChar: Byte, quote: Byte)

  const DEFAULT_PARMS := Parms(END_CHAR, 0, 0, K_ESCAPE)

  /** How many parameters are processed: a full buffer loses its last one. */
  function Processed(payload: seq<Byte>): nat {
    if |payload| < SEND_DATA_SIZE - 1 then |payload| else SEND_DATA_SIZE - 2
  }

  function ParmsOf(payload: seq<Byte>): Parms {
    var k := Processed(payload);
    Parms(if k >= 5 then UnChar(payload[4]) else END_CHAR,
          if k >= 3 then UnChar(payload[2]) else 0,
          if k >= 4 then Ktrans(payload[3]) else 0,
          if k >= 6 then payload[5] else K_ESCAPE)
  }

  /** The receiver between two packets: the decoder, its checkpoint, the last sequence number and the parameters. */
  datatype Machine = Machine(cur: Decoder, saved: Decoder, lastN: int, parms: Parms)

  const EMPTY := Decoder(false, [])
  const INITIAL := Machine(EMPTY, EMPTY, -1, DEFAULT_PARMS)

  /** The decoder a packet with number `n` starts from: a repeated number goes back to the checkpoint. */
  function Base(m: Machine, n: Byte): Decoder {
    if n == m.lastN then m.saved else m.cur
  }

  function Step(m: Machine, e: Event): Machine {
    match e
    case Early => m.(cur := m.saved)
    case Bad(n) => Machine(Base(m, n), Base(m, n), n, m.parms)
    case Good(n, kind, payload) =>
      Machine(if kind == DATA_TYPE then Feed(Base(m, n), m.parms.quote, payload) else Base(m, n),
              Base(m, n), n, if kind == SEND_TYPE then ParmsOf(payload) else m.parms)
  }

  function After(events: seq<Event>): Machine {
    if events == [] then INITIAL else Step(After(events[..|events| - 1]), events[|events| - 1])
  }

  // ---------------------------------------------------------------- one payload per run of equal sequence numbers

  function LastN(events: seq<Event>): int {
    if events == [] then -1
    else
      var e := events[|events| - 1];
      if e.Early? then LastN(events[..|events| - 1]) else e.n
  }

  function QuoteAfter(events: seq<Event>): Byte {
    if events == [] then K_ESCAPE
    else
      var e := events[|events| - 1];
      if e.Good? && e.kind == SEND_TYPE then ParmsOf(e.payload).quote else QuoteAfter(events[..|events| - 1])
  }

  /** Where the last run begins: at the latest packet whose number differs from the number before it. Packets whose
      number was never read belong to the run they arrive in. */
  function RunStart(events: seq<Event>): (i: nat)
    ensures i <= |events| && (LastN(events) != -1 ==> i < |events|)
  {
    if events == [] then 0
    else
      var before, e := events[..|events| - 1], events[|events| - 1];
      if !e.Early? && e.n != LastN(before) then |events| - 1
      else if LastN(before) == -1 then 0
      else RunStart(before)
  }

  /** What a file consists of: each run of packets with one number adds the payload of its last packet, if that is a
      good data packet, and nothing otherwise. */
  function Content(events: seq<Event>): Decoder
    decreases |events|
  {
    if LastN(events) == -1 then EMPTY
    else
      var base, e := Content(events[..RunStart(events)]), events[|events| - 1];
      if e.Good? && e.kind == DATA_TYPE then Feed(base, QuoteAfter(events[..|events| - 1]), e.payload) else base
  }

  /** The receiver's checkpoints and rollbacks compute exactly that, whatever is repeated, damaged or lost. */
  lemma {:induction false} ReceiverContent(events: seq<Event>)
    ensures After(events).cur == Content(events)
    ensures After(events).saved == if LastN(events) == -1 then EMPTY else Content(events[..RunStart(events)])
    ensures After(events).lastN == LastN(events) && After(events).parms.quote == QuoteAfter(events)
  {
    if events != [] {
      var before := events[..|events| - 1];
      ReceiverContent(before);
      if LastN(before) != -1 {
        assert events[..RunStart(before)] == before[..RunStart(before)];
      }
    }
  }

  // ---------------------------------------------------------------- what that means for a sender

  /** A packet sent again adds nothing, and a damaged attempt in front of it takes nothing away. */
  lemma RepeatsAndRetries(events: seq<Event>, e: Event)
    requires e.Good?
    ensures Content(events + [e, e]) == Content(events + [e])
    ensures Content(events + [Bad(e.n), e]) == Content(events + [e])
    ensures Content(events + [e, Bad(e.n), e]) == Content(events + [e])
  {
    AfterMore(events, [e, e]);
    AfterMore(events, [Bad(e.n), e]);
    AfterMore(events, [e]);
    AfterMore(events, [e, Bad(e.n), e]);
    ReceiverContent(events + [e, e]);
    ReceiverContent(events + [Bad(e.n), e]);
    ReceiverContent(events + [e]);
    ReceiverContent(events + [e, Bad(e.n), e]);
    assert [e, Bad(e.n), e][..2] == [e, Bad(e.n)] && [e, Bad(e.n)][..1] == [e] && [e, e][..1] == [e];
    assert [Bad(e.n), e][..1] == [Bad(e.n)];
  }

  function StepAll(m: Machine, events: seq<Event>): Machine {
    if events == [] then m else Step(StepAll(m, events[..|events| - 1]), events[|events| - 1])
  }

  lemma {:induction false} AfterMore(events: seq<Event>, more: seq<Event>)
    ensures After(events + more) == StepAll(After(events), more)
  {
    if more == [] {
      assert events + more == events;
    } else {
      AfterMore(events, more[..|more| - 1]);
      assert (events + more)[..|events + more| - 1] == events + more[..|more| - 1];
    }
  }

  /** An error before the sequence number takes back the packet in front of it, although that was acknowledged: nothing
      is lost exactly if that packet brought no data. */
  lemma EarlyErrorLosesPacket(events: seq<Event>, e: Event)
    requires e.Good?
    ensures Content(events + [e, Early]) == Content(events + [e]) <==> e.kind != DATA_TYPE || e.payload == []
  {
    AfterMore(events, [e]);
    AfterMore(events, [e, Early]);
    ReceiverContent(events + [e]);
    ReceiverContent(events + [e, Early]);
    assert [e, Early][..1] == [e];
    var base := Base(After(events), e.n);
    if e.kind == DATA_TYPE && e.payload != [] {
      FeedMoves(base, After(events).parms.quote, e.payload);
    }
  }

  /** What an early error costs once the next packet has arrived: exactly as much as if the packet before it had been
      empty. That is nothing if the sender repeats the number it was asked for again, and otherwise, where the next
      packet brings no data itself, all that the packet before it had brought. */
  lemma AfterEarlyError(events: seq<Event>, e: Event, f: Event)
    requires e.Good? && e.kind == DATA_TYPE && !f.Early?
    ensures Content(events + [e, Early, f]) == Content(events + [e.(payload := []), f])
    ensures f.n == e.n ==> Content(events + [e, Early, f]) == Content(events + [e, f])
    ensures f.n != e.n && (f.Bad? || f.kind != DATA_TYPE) ==>
              (Content(events + [e, Early, f]) == Content(events + [e, f]) <==> e.payload == [])
  {
    hide Feed;
    var emptied, m := e.(payload := []), After(events);
    ContentAfter(events, [e], f);
    ContentAfter(events, [e, Early], f);
    ContentAfter(events, [emptied], f);
    assert [e] + [f] == [e, f] && [e, Early] + [f] == [e, Early, f] && [emptied] + [f] == [emptied, f];
    assert [e, Early][..1] == [e];
    FeedNothing(Base(m, e.n), m.parms.quote);
    assert StepAll(m, [e]) == Step(m, e) && StepAll(m, [emptied]) == Step(m, emptied) == StepAll(m, [e, Early]);
    if e.payload != [] {
      FeedMoves(Base(m, e.n), m.parms.quote, e.payload);
    }
  }

  lemma ContentAfter(events: seq<Event>, more: seq<Event>, f: Event)
    ensures Content(events + (more + [f])) == Step(StepAll(After(events), more), f).cur
  {
    hide Step, Content;
    AfterMore(events, more + [f]);
    ReceiverContent(events + (more + [f]));
    assert (more + [f])[..|more|] == more;
  }

  lemma FeedNothing(d: Decoder, quote: Byte)
    ensures Feed(d, quote, []) == d
  {
  }

  lemma {:induction false} FeedMoves(d: Decoder, quote: Byte, chars: seq<Byte>)
    requires chars != []
    ensures Feed(d, quote, chars) != d
  {
    var before := Feed(d, quote, chars[..|chars| - 1]);
    if |chars| == 1 {
      assert before == d;
    } else if |before.bytes| == |d.bytes| {
      FeedStalls(d, quote, chars[..|chars| - 1]);
    }
  }

  lemma {:induction false} FeedStalls(d: Decoder, quote: Byte, chars: seq<Byte>)
    requires |Feed(d, quote, chars).bytes| == |d.bytes|
    ensures chars == [] || (|chars| == 1 && !d.escape && Feed(d, quote, chars).escape)
  {
    if chars != [] {
      FeedStalls(d, quote, chars[..|chars| - 1]);
    }
  }
}
