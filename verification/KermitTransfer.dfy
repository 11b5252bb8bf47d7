/** Sending a file by Kermit: quoting, splitting into packets, and the receiver's answers
    (u-boot-v1.2/common/cmd_load.c). */
module KermitTransfer {
  import opened Basics
  import opened Kermit
  import opened KermitPackets

  // ---------------------------------------------------------------- quoting

  /** The characters that may serve as the control quote. */
  predicate Legal(quote: Byte) {
    33 <= quote <= 62 || 96 <= quote <= 126
  }

  /** A byte as it is sent: control characters, of either half of the character set, and quotes are quoted. */
  function EncodeByte(b: Byte, quote: Byte): seq<Byte> {
    if b % 128 < 32 || b % 128 == 127 then [quote, if (b / 64) % 2 == 1 then b - 64 else b + 64]
    else if b % 128 == quote then [quote, b]
    else [b]
  }

  function Encode(file: seq<Byte>, quote: Byte): seq<Byte> {
    if file == [] then [] else Encode(file[..|file| - 1], quote) + EncodeByte(file[|file| - 1], quote)
  }

  lemma FeedSingle(d: Decoder, quote: Byte, c: Byte)
    ensures Feed(d, quote, [c]) == FeedChar(d, quote, c)
  {
    assert [c][..0] == [];
  }

  lemma FeedPair(d: Decoder, quote: Byte, c: Byte)
    requires !d.escape
    ensures Feed(d, quote, [quote, c]) == Decoder(false, d.bytes + [Ktrans(c)])
  {
    assert [quote, c] == [quote] + [c];
    FeedJoin(d, quote, [quote], [c]);
    FeedSingle(d, quote, quote);
    FeedSingle(Decoder(true, d.bytes), quote, c);
  }

  lemma KtransUndoes(b: Byte, quote: Byte)
    requires Legal(quote)
    ensures |EncodeByte(b, quote)| == 2 ==> EncodeByte(b, quote)[0] == quote && Ktrans(EncodeByte(b, quote)[1]) == b
    ensures |EncodeByte(b, quote)| == 1 ==> EncodeByte(b, quote) == [b] && b != quote
    ensures 1 <= |EncodeByte(b, quote)| <= 2 && Printable(EncodeByte(b, quote))
  {
  }

  lemma FeedOne(d: Decoder, quote: Byte, b: Byte)
    requires Legal(quote) && !d.escape
    ensures Feed(d, quote, EncodeByte(b, quote)) == Decoder(false, d.bytes + [b])
    ensures Printable(EncodeByte(b, quote))
  {
    hide EncodeByte, Ktrans, Feed;
    KtransUndoes(b, quote);
    var chars := EncodeByte(b, quote);
    if |chars| == 2 {
      assert chars == [quote, chars[1]];
      FeedPair(d, quote, chars[1]);
    } else {
      FeedSingle(d, quote, b);
    }
  }

  lemma PrintableNothing()
    ensures Printable([])
  {
  }

  lemma PrintableJoin(a: seq<Byte>, b: seq<Byte>)
    ensures Printable(a) && Printable(b) ==> Printable(a + b)
  {
  }

  /** Decoding undoes encoding, for every file and every legal quote. */
  lemma {:induction false} FeedEncoded(file: seq<Byte>, quote: Byte)
    requires Legal(quote)
    ensures Feed(EMPTY, quote, Encode(file, quote)) == Decoder(false, file) && Printable(Encode(file, quote))
  {
    hide EncodeByte, Ktrans, Legal, Feed, FeedChar, Printable;
    if file == [] {
      FeedNothing(EMPTY, quote);
      PrintableNothing();
    } else {
      var before, b := file[..|file| - 1], file[|file| - 1];
      FeedEncoded(before, quote);
      PrintableJoin(Encode(before, quote), EncodeByte(b, quote));
      FeedJoin(EMPTY, quote, Encode(before, quote), EncodeByte(b, quote));
      FeedOne(Decoder(false, before), quote, b);
      assert before + [b] == file;
    }
  }

  // ---------------------------------------------------------------- a file in packets

  /** A packet on the line, with what the receiver ignores in front of it. */
  datatype Sent = Sent(junk: seq<Byte>, n: Byte, kind: Byte, data: seq<Byte>, framing: Framing)
  {
    ghost predicate Valid() {
      && START_CHAR !in junk && ETX_CHAR !in junk
      && n < 224 && !Control(kind) && Framable(data, framing) && Printable(data)
    }

    function Line(): seq<Byte>
      requires Framable(data, framing)
    {
      junk + [START_CHAR] + Packet(n, kind, data, framing)
    }
  }

  ghost predicate AllValid(sents: seq<Sent>) {
    forall p :: p in sents ==> p.Valid()
  }

  function Line(sents: seq<Sent>): seq<Byte>
    requires AllValid(sents)
  {
    if sents == [] then [] else assert sents[0] in sents; sents[0].Line() + Line(sents[1..])
  }

  function Events(sents: seq<Sent>): (r: seq<Event>)
    ensures |r| == |sents|
  {
    if sents == [] then [] else [Good(sents[0].n, sents[0].kind, sents[0].data)] + Events(sents[1..])
  }

  /** Only the last packet breaks the transmission. */
  predicate BreaksLast(sents: seq<Sent>) {
    if sents == [] then false
    else if |sents| == 1 then sents[0].kind == BREAK_TYPE
    else sents[0].kind != BREAK_TYPE && BreaksLast(sents[1..])
  }

  lemma {:induction false} WaitSkips(junk: seq<Byte>, rest: seq<Byte>)
    requires START_CHAR !in junk && ETX_CHAR !in junk
    ensures Wait(junk + [START_CHAR] + rest) == Started(rest)
  {
    var s := junk + [START_CHAR] + rest;
    if junk == [] {
      assert s[1..] == rest;
    } else {
      assert s[1..] == junk[1..] + [START_CHAR] + rest;
      WaitSkips(junk[1..], rest);
    }
  }

  /** The receiver sees exactly the packets sent. */
  lemma {:induction false} LineParses(sents: seq<Sent>, rest: seq<Byte>)
    requires AllValid(sents) && BreaksLast(sents)
    ensures Session(Line(sents) + rest) == Some(Log(Events(sents), false))
    decreases |sents|
  {
    hide Packet, ParsePacket, Wait;
    var p, s := sents[0], Line(sents) + rest;
    assert p in sents;
    var e, more := Good(p.n, p.kind, p.data), Line(sents[1..]) + rest;
    var packet := Packet(p.n, p.kind, p.data, p.framing);
    assert s == p.junk + [START_CHAR] + (packet + more);
    WaitSkips(p.junk, packet + more);
    PacketParses(p.n, p.kind, p.data, p.framing, more);
    assert Wait(s) == Started(packet + more) && ParsePacket(packet + more) == Got(e, more);
    if |sents| == 1 {
      assert IsBreak(e) && Session(s) == Some(Log([e], false));
      assert Events(sents) == [e];
    } else {
      LineParses(sents[1..], rest);
      assert Session(s) == Some(Log([e] + Events(sents[1..]), false));
    }
  }

  /** The data of all data packets, one after the other. */
  function DataOf(events: seq<Event>): seq<Byte> {
    if events == [] then []
    else
      var e := events[|events| - 1];
      DataOf(events[..|events| - 1]) + (if e.Good? && e.kind == DATA_TYPE then e.payload else [])
  }

  /** Every packet is good, has another number than the one before, and every data packet is quoted with `quote`. */
  predicate Undisturbed(events: seq<Event>, quote: Byte) {
    events == [] ||
    var before, e := events[..|events| - 1], events[|events| - 1];
    && Undisturbed(before, quote)
    && e.Good? && e.n != LastN(before)
    && (e.kind == DATA_TYPE ==> QuoteAfter(before) == quote)
  }

  lemma {:induction false} UndisturbedContent(events: seq<Event>, quote: Byte)
    requires Undisturbed(events, quote)
    ensures After(events).cur == Feed(EMPTY, quote, DataOf(events))
  {
    if events != [] {
      var before, e := events[..|events| - 1], events[|events| - 1];
      UndisturbedContent(before, quote);
      ReceiverContent(before);
      if e.kind == DATA_TYPE {
        FeedJoin(EMPTY, quote, DataOf(before), e.payload);
      } else {
        assert DataOf(before) + [] == DataOf(before);
      }
    }
  }

  /** The round trip: a file encoded with any legal quote, cut into data packets anywhere, even between a quote and its
      character, of either length format, is what the receiver has when the transmission ends. */
  lemma FileArrives(file: seq<Byte>, quote: Byte, sents: seq<Sent>, rest: seq<Byte>)
    requires Legal(quote) && AllValid(sents) && BreaksLast(sents)
    requires Undisturbed(Events(sents), quote) && DataOf(Events(sents)) == Encode(file, quote)
    ensures Session(Line(sents) + rest) == Some(Log(Events(sents), false))
    ensures Content(Events(sents)) == Decoder(false, file)
  {
    LineParses(sents, rest);
    UndisturbedContent(Events(sents), quote);
    FeedEncoded(file, quote);
    ReceiverContent(Events(sents));
  }

  // ---------------------------------------------------------------- a file in spite of errors

  /** What is left of a session when of each run of packets with one number only the last one is kept, if it is good. */
  function Survivors(events: seq<Event>): seq<Event>
    decreases |events|
  {
    if LastN(events) == -1 then []
    else
      var e := events[|events| - 1];
      Survivors(events[..RunStart(events)]) + (if e.Good? then [e] else [])
  }

  /** Every good data packet arrives while `quote` is the quote. */
  predicate Quoted(events: seq<Event>, quote: Byte) {
    forall i :: 0 <= i < |events| && events[i].Good? && events[i].kind == DATA_TYPE ==> QuoteAfter(events[..i]) == quote
  }

  lemma DataOfMore(events: seq<Event>, e: Event)
    ensures DataOf(events + [e]) == DataOf(events) + (if e.Good? && e.kind == DATA_TYPE then e.payload else [])
  {
    assert (events + [e])[..|events|] == events;
  }

  lemma {:induction false} SurvivorsContent(events: seq<Event>, quote: Byte)
    requires Quoted(events, quote)
    ensures Content(events) == Feed(EMPTY, quote, DataOf(Survivors(events)))
    decreases |events|
  {
    if LastN(events) != -1 {
      var start, e := RunStart(events), events[|events| - 1];
      var base := events[..start];
      assert forall i :: 0 <= i < start ==> base[..i] == events[..i];
      SurvivorsContent(base, quote);
      var kept := Survivors(base);
      DataOfMore(kept, e);
      if e.Good? && e.kind == DATA_TYPE {
        FeedJoin(EMPTY, quote, DataOf(kept), e.payload);
      } else {
        assert DataOf(kept) + [] == DataOf(kept) && kept + [] == kept;
      }
    }
  }

  /** A file arrives in spite of errors: whatever is repeated, damaged or lost on the way, the receiver has the file
      if what is left of each packet's attempts carries it. */
  lemma FileArrivesDespiteErrors(file: seq<Byte>, quote: Byte, events: seq<Event>)
    requires Legal(quote) && Quoted(events, quote) && DataOf(Survivors(events)) == Encode(file, quote)
    ensures Content(events) == Decoder(false, file)
  {
    SurvivorsContent(events, quote);
    FeedEncoded(file, quote);
  }

  // ---------------------------------------------------------------- answers

  /** What the answer to a send-initiate packet offers, one entry for each parameter processed; with the tenth come the
      three that belong to long packets. */
  const OFFERS: seq<Byte> := [126, 33, 32, 64, 45, 35, 78, 49, 78, 34, 32, 126, 126]

  function Offer(payload: seq<Byte>): (r: seq<Byte>)
    ensures |r| <= 13
  {
    if Processed(payload) < 10 then OFFERS[..Processed(payload)] else OFFERS
  }

  /** A packet as the receiver sends it: the terminator of its string ends it if that is what the sender wants as end of
      line. */
  function Answer(n: Byte, kind: Byte, data: seq<Byte>, eol: Byte): seq<Byte> {
    var body := [ToChar(|data| + 3), ToChar(n), kind] + data;
    [START_CHAR] + body + [ToChar(Check(Sum(body)))] + (if eol == 0 then [] else [eol])
  }

  function Padding(p: Parms): seq<Byte> {
    seq(p.padCount, _ => p.padChar)
  }

  /** The number an answer carries: that of the last packet whose number was read, or 0 before there was one. */
  function AnswerN(m: Machine): Byte
    requires -1 <= m.lastN < 256
  {
    if m.lastN == -1 then 0 else m.lastN
  }

  /** What is sent for an event, `m` being the receiver after it. */
  function AnswerTo(m: Machine, e: Event): seq<Byte>
    requires -1 <= m.lastN < 256
  {
    Padding(m.parms) +
    (if !e.Good? then Answer(AnswerN(m), NACK_TYPE, [], m.parms.eol)
     else if e.kind == SEND_TYPE then Answer(AnswerN(m), ACK_TYPE, Offer(e.payload), m.parms.eol)
     else Answer(AnswerN(m), ACK_TYPE, [], m.parms.eol))
  }

  lemma OffersPrintable(payload: seq<Byte>)
    ensures Printable(Offer(payload))
  {
  }

  /** If the sender wants a carriage return as end of line, every answer is itself a good packet. */
  lemma AnswersParse(m: Machine, e: Event, rest: seq<Byte>)
    requires -1 <= m.lastN < 224 && m.parms.eol == END_CHAR
    ensures var data := if e.Good? && e.kind == SEND_TYPE then Offer(e.payload) else [];
            var kind := if e.Good? then ACK_TYPE else NACK_TYPE;
            && AnswerTo(m, e) == Padding(m.parms) + [START_CHAR] + Packet(AnswerN(m), kind, data, Normal)
            && ParsePacket(Packet(AnswerN(m), kind, data, Normal) + rest) == Got(Good(AnswerN(m), kind, data), rest)
  {
    hide Sum, Check, ToChar;
    var data := if e.Good? && e.kind == SEND_TYPE then Offer(e.payload) else [];
    var kind := if e.Good? then ACK_TYPE else NACK_TYPE;
    if e.Good? {
      OffersPrintable(e.payload);
    }
    var head := Header(AnswerN(m), kind, data, Normal);
    var check := ToChar(Check(Sum(head + data)));
    assert [START_CHAR] + (head + data) + [check] + [END_CHAR] == [START_CHAR] + (head + data + [check, END_CHAR]);
    assert AnswerTo(m, e) == Padding(m.parms) + Answer(AnswerN(m), kind, data, END_CHAR);
    hide Padding, Offer, ParsePacket;
    PacketParses(AnswerN(m), kind, data, Normal, rest);
  }
}
