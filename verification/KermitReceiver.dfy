/** The Kermit receiver with its state, writing straight to memory (u-boot-v1.2/common/cmd_load.c). */
module KermitReceiver {
  import opened Basics
  import opened Kermit
  import opened KermitPackets
  import opened KermitTransfer

  class Receiver {
    const ram: array<Byte>         // memory from `bin_start_address` on
    const sendParms: array<Byte>
    const aB: array<Byte>
    const input: seq<Byte>         // what comes over the line, from `pos` on
    var pos: nat
    var output: seq<Byte>
    var kDataEscape: bool
    var kDataEscapeSaved: bool
    var osDataAddr: nat
    var osDataAddrSaved: nat
    var sendPtr: nat
    var hisEol: Byte
    var hisPadCount: Byte
    var hisPadChar: Byte
    var hisQuote: Byte

    constructor (input: seq<Byte>, ramSize: nat)
      ensures fresh(ram) && fresh(sendParms) && fresh(aB)
      ensures this.input == input && pos == 0 && output == [] && ram.Length == ramSize
      ensures ram != sendParms && ram != aB && sendParms != aB && sendParms.Length == SEND_DATA_SIZE && aB.Length == 24
      ensures osDataAddr == osDataAddrSaved == 0 && (|input| <= ramSize ==> Valid())
    {
      this.input, pos, output := input, 0, [];
      ram := new Byte[ramSize];
      sendParms := new Byte[SEND_DATA_SIZE];
      aB := new Byte[24];
      kDataEscape, kDataEscapeSaved, osDataAddr, osDataAddrSaved, sendPtr := false, false, 0, 0, 0;
      hisEol, hisPadCount, hisPadChar, hisQuote := END_CHAR, 0, 0, K_ESCAPE;
    }

    /** The arrays are apart, and memory is large enough for all that may still come. */
    ghost predicate Valid()
      reads this
    {
      && sendParms.Length == SEND_DATA_SIZE && aB.Length == 24
      && ram != sendParms && ram != aB && sendParms != aB
      && pos <= |input| && sendPtr < SEND_DATA_SIZE
      && osDataAddrSaved <= osDataAddr && osDataAddr + (|input| - pos) <= ram.Length
    }

    ghost function Rest(): seq<Byte>
      requires pos <= |input|
      reads `pos
    {
      input[pos..]
    }

    ghost function Current(): Decoder
      requires osDataAddr <= ram.Length
      reads `kDataEscape, `osDataAddr, ram
    {
      Decoder(kDataEscape, ram[..osDataAddr])
    }

    ghost function Saved(): Decoder
      requires osDataAddrSaved <= ram.Length
      reads `kDataEscapeSaved, `osDataAddrSaved, ram
    {
      Decoder(kDataEscapeSaved, ram[..osDataAddrSaved])
    }

    ghost function TheParms(): Parms
      reads `hisEol, `hisPadCount, `hisPadChar, `hisQuote
    {
      Parms(hisEol, hisPadCount, hisPadChar, hisQuote)
    }

    // ---------------------------------------------------------------- the line

    method Getc() returns (c: Byte)
      requires pos < |input|
      modifies `pos
      ensures c == old(Rest())[0] && pos == old(pos) + 1 && Rest() == old(Rest())[1..]
    {
      c := input[pos];
      pos := pos + 1;
    }

    method Putc(c: Byte)
      modifies `output
      ensures output == old(output) + [c]
    {
      output := output + [c];
    }

    method SendPad()
      modifies `output
      ensures output == old(output) + Padding(TheParms())
    {
      var count := hisPadCount;
      ghost var sent: nat, padding := 0, Padding(TheParms());
      while count > 0
        invariant 0 <= count && sent + count == hisPadCount
        invariant output == old(output) + padding[..sent]
      {
        Putc(hisPadChar);
        sent := sent + 1;
        count := count - 1;
      }
    }

    /** Sends the string in `aB`. */
    method SendPacket(ghost s: seq<Byte>)
      requires |s| < aB.Length && aB[..|s|] == s && aB[|s|] == 0 && 0 !in s
      modifies `output
      ensures output == old(output) + Padding(TheParms()) + s
    {
      SendPad();
      ghost var before := output;
      var i := 0;
      while aB[i] != 0
        invariant i <= |s| && output == before + s[..i]
        decreases |s| - i
      {
        assert aB[i] == aB[..|s|][i];
        Putc(aB[i]);
        i := i + 1;
      }
      assert s[..i] == s;
    }

    /** The check of the string that starts at the second place of `aB`. */
    method Chk1(ghost s: seq<Byte>) returns (check: nat)
      requires |s| + 1 < aB.Length && aB[1..1 + |s|] == s && aB[1 + |s|] == 0 && 0 !in s
      ensures check == Check(Sum(s))
    {
      var total: nat := 0;
      var i := 0;
      while aB[1 + i] != 0
        invariant i <= |s| && total == Sum(s[..i])
        decreases |s| - i
      {
        assert aB[1 + i] == aB[1..1 + |s|][i];
        assert s[..i + 1][..i] == s[..i];
        total := total + aB[1 + i];
        i := i + 1;
      }
      assert s[..i] == s;
      check := Check(total);
    }

    /** Puts the header, the check and the end of line around the data in `aB`, and sends it all. */
    method SendBuilt(n: Byte, kind: Byte, length: nat, ghost data: seq<Byte>)
      requires n < 224 && kind != 0 && length == 3 + |data| <= 16 && 0 !in data
      requires aB.Length == 24 && aB[4..length + 1] == data
      modifies aB, `output
      ensures output == old(output) + Padding(TheParms()) + Answer(n, kind, data, hisEol)
    {
      hide Sum, Check, ToChar, Padding, Answer;
      PrintableChars(n, length);
      ghost var body := [ToChar(length), ToChar(n), kind] + data;
      PutHeader(n, kind, length, data);
      var check := Chk1(body);
      CheckCharacter(Sum(body));
      PutEnd(length, check, body);
      AnswerIs(n, kind, data, hisEol);
      SendPacket(Answer(n, kind, data, hisEol));
    }

    method PutHeader(n: Byte, kind: Byte, length: nat, ghost data: seq<Byte>)
      requires length == 3 + |data| <= 16 && aB.Length == 24 && aB[4..length + 1] == data
      modifies aB
      ensures aB[..length + 1] == [START_CHAR] + ([ToChar(length), ToChar(n), kind] + data) && aB[length + 1] == 0
      ensures aB[1..length + 1] == [ToChar(length), ToChar(n), kind] + data
    {
      hide ToChar;
      aB[0] := START_CHAR;
      aB[1] := ToChar(length);
      aB[2] := ToChar(n);
      aB[3] := kind;
      aB[length + 1] := 0;
    }

    method PutEnd(length: nat, check: nat, ghost body: seq<Byte>)
      requires length == |body| <= 16 && aB.Length == 24 && aB[..length + 1] == [START_CHAR] + body
      modifies aB
      ensures aB[..length + 3] == [START_CHAR] + body + [ToChar(check)] + [hisEol] && aB[length + 3] == 0
    {
      hide ToChar;
      aB[length + 1] := ToChar(check);
      aB[length + 2] := hisEol;
      aB[length + 3] := 0;
      assert aB[..length + 3] == aB[..length + 1] + [aB[length + 1]] + [aB[length + 2]];
    }

    method SendAck(n: Byte)
      requires n < 224 && aB.Length == 24
      modifies aB, `output
      ensures output == old(output) + Padding(TheParms()) + Answer(n, ACK_TYPE, [], hisEol)
    {
      SendBuilt(n, ACK_TYPE, 3, []);
    }

    method SendNack(n: Byte)
      requires n < 224 && aB.Length == 24
      modifies aB, `output
      ensures output == old(output) + Padding(TheParms()) + Answer(n, NACK_TYPE, [], hisEol)
    {
      SendBuilt(n, NACK_TYPE, 3, []);
    }

    /** The answer under construction covers the first `k` parameters, as far as they were given. */
    ghost predicate Offered(bytes: nat, k: nat, length: nat)
      reads aB
    {
      && k <= |OFFERS| && length == 3 + Min(bytes, k) && aB.Length == 24
      && aB[4..length + 1] == OFFERS[..Min(bytes, k)]
    }

    lemma OfferedNothing(bytes: nat)
      requires aB.Length == 24
      ensures Offered(bytes, 0, 3)
    {
    }

    /** Adds the answer to parameter number `k` to the answer under construction, if there is such a parameter. */
    method Offer1(bytes: nat, k: nat, c: Byte, length: nat) returns (longer: nat)
      requires 0 < k <= 10 && c == OFFERS[k - 1] && Offered(bytes, k - 1, length)
      modifies aB
      ensures Offered(bytes, k, longer)
    {
      longer := length;
      if bytes >= k {
        longer := longer + 1;
        aB[longer] := c;
      }
    }

    /** What belongs to long packets follows the tenth parameter. */
    method OfferLong(bytes: nat, length: nat) returns (longer: nat)
      requires Offered(bytes, 10, length)
      modifies aB
      ensures var data := if bytes < 10 then OFFERS[..bytes] else OFFERS;
              longer == 3 + |data| && aB[4..longer + 1] == data
    {
      longer := length;
      assert OFFERS[..10] + [ToChar(0), ToChar(94), ToChar(94)] == OFFERS;
      if bytes >= 10 {
        aB[longer + 1] := ToChar(0);
        aB[longer + 2] := ToChar(94);
        aB[longer + 3] := ToChar(94);
        longer := longer + 3;
      }
    }

    /** Builds the data of the answer: what is offered for each of the first ten parameters that the sender gave. */
    method MakeOffer(bytes: nat) returns (length: nat)
      requires aB.Length == 24
      modifies aB
      ensures var data := if bytes < 10 then OFFERS[..bytes] else OFFERS;
              length == 3 + |data| && aB[4..length + 1] == data
    {
      hide Offered;
      OfferedNothing(bytes);
      length := Offer1(bytes, 1, ToChar(94), 3);
      length := Offer1(bytes, 2, ToChar(1), length);
      length := Offer1(bytes, 3, ToChar(0), length);
      length := Offer1(bytes, 4, 0x40, length);
      length := Offer1(bytes, 5, ToChar(END_CHAR), length);
      length := Offer1(bytes, 6, 0x23, length);
      length := Offer1(bytes, 7, 0x4e, length);
      length := Offer1(bytes, 8, 0x31, length);
      length := Offer1(bytes, 9, 0x4e, length);
      length := Offer1(bytes, 10, ToChar(2), length);
      length := OfferLong(bytes, length);
    }

    /** Remembers what the sender wants. */
    method TakeWishes(bytes: nat)
      requires bytes < sendParms.Length
      modifies `hisEol, `hisPadCount, `hisPadChar, `hisQuote
      ensures hisEol == if bytes >= 5 then UnChar(sendParms[4]) else END_CHAR
      ensures hisPadCount == if bytes >= 3 then UnChar(sendParms[2]) else 0
      ensures hisPadChar == if bytes >= 4 then Ktrans(sendParms[3]) else 0
      ensures hisQuote == if bytes >= 6 then sendParms[5] else K_ESCAPE
    {
      hisEol := END_CHAR;
      hisPadCount := 0;
      hisPadChar := 0;
      hisQuote := K_ESCAPE;
      if bytes >= 3 {
        hisPadCount := UnChar(sendParms[2]);
      }
      if bytes >= 4 {
        hisPadChar := Ktrans(sendParms[3]);
      }
      if bytes >= 5 {
        hisEol := UnChar(sendParms[4]);
      }
      if bytes >= 6 {
        hisQuote := sendParms[5];
      }
    }

    /** Interprets the parameters of a send-initiate packet and answers it. */
    method HandleSendPacket(n: Byte, ghost payload: seq<Byte>)
      requires n < 224 && Valid() && sendPtr == SlotsFor(|payload|)
      requires forall i :: 0 <= i < sendPtr && i < SEND_DATA_SIZE - 1 ==> sendParms[i] == payload[i]
      modifies aB, `output, `sendPtr, `hisEol, `hisPadCount, `hisPadChar, `hisQuote
      ensures Valid() && TheParms() == ParmsOf(payload)
      ensures output == old(output) + Padding(TheParms()) + Answer(n, ACK_TYPE, Offer(payload), hisEol)
    {
      if sendPtr == SEND_DATA_SIZE - 1 {
        sendPtr := sendPtr - 1;
      }
      TakeWishes(sendPtr);
      var length := MakeOffer(sendPtr);
      OffersPrintable(payload);
      SendBuilt(n, ACK_TYPE, length, Offer(payload));
    }

    // ---------------------------------------------------------------- checkpoints and data

    method KDataSave()
      requires Valid()
      modifies `kDataEscapeSaved, `osDataAddrSaved
      ensures Valid() && Saved() == Current() == old(Current())
    {
      kDataEscapeSaved := kDataEscape;
      osDataAddrSaved := osDataAddr;
    }

    method KDataRestore()
      requires Valid()
      modifies `kDataEscape, `osDataAddr
      ensures Valid() && Current() == Saved() == old(Saved())
    {
      kDataEscape := kDataEscapeSaved;
      osDataAddr := osDataAddrSaved;
    }

    method BinDataChar(c: Byte)
      requires osDataAddr < ram.Length
      modifies ram, `osDataAddr
      ensures osDataAddr == old(osDataAddr) + 1 && ram[..osDataAddr] == old(ram[..osDataAddr]) + [c]
    {
      ram[osDataAddr] := c;
      osDataAddr := osDataAddr + 1;
    }

    method KDataChar(c: Byte)
      requires osDataAddr < ram.Length && osDataAddrSaved <= osDataAddr
      modifies ram, `osDataAddr, `kDataEscape
      ensures old(osDataAddr) <= osDataAddr <= old(osDataAddr) + 1
      ensures Current() == FeedChar(old(Current()), hisQuote, c)
      ensures ram[..osDataAddrSaved] == old(ram[..osDataAddrSaved])
    {
      ghost var before := ram[..osDataAddr];
      assert before[..osDataAddrSaved] == ram[..osDataAddrSaved];
      if kDataEscape {
        BinDataChar(Ktrans(c));
        kDataEscape := false;
      } else if c == hisQuote {
        kDataEscape := true;
      } else {
        BinDataChar(c);
      }
      assert ram[..osDataAddr][..osDataAddrSaved] == ram[..osDataAddrSaved];
    }

    /** Keeps one parameter; when the buffer is full its last place is written again. */
    method KeepParm(c: Byte, ghost payload: seq<Byte>)
      requires Valid() && Kept(payload)
      modifies sendParms, `sendPtr
      ensures Valid() && Kept(payload + [c])
    {
      sendParms[sendPtr] := c;
      sendPtr := sendPtr + 1;
      if sendPtr >= SEND_DATA_SIZE {
        sendPtr := sendPtr - 1;
      }
    }

    /** The parameter buffer holds what it can of the payload. */
    ghost predicate Kept(payload: seq<Byte>)
      reads `sendPtr, sendParms
    {
      && sendPtr == SlotsFor(|payload|) < sendParms.Length
      && forall i :: 0 <= i < sendPtr && i < SEND_DATA_SIZE - 1 ==> sendParms[i] == payload[i]
    }

    // ---------------------------------------------------------------- receiving a packet

    /** What a packet that got past its sequence number leaves behind. */
    ghost predicate Received(ok: bool, n: Byte, kind: Byte, e: Event, base: Decoder)
      requires osDataAddr <= ram.Length
      reads this, ram, sendParms
    {
      if ok then
        && e.Good? && e.n == n && e.kind == kind
        && Current() == (if kind == DATA_TYPE then Feed(base, hisQuote, e.payload) else base)
        && (kind == SEND_TYPE ==> Kept(e.payload))
      else e == Bad(n)
    }

    /** Passes one character of the data on, or keeps it as a parameter. */
    method PassOn(kind: Byte, c: Byte, ghost base: Decoder, ghost payload: seq<Byte>)
      requires Valid() && osDataAddr < ram.Length && osDataAddr + 1 + (|input| - pos) <= ram.Length && Saved() == base
      requires Current() == if kind == DATA_TYPE then Feed(base, hisQuote, payload) else base
      requires kind == SEND_TYPE ==> Kept(payload)
      modifies ram, `kDataEscape, `osDataAddr, sendParms, `sendPtr
      ensures Valid() && Saved() == base
      ensures Current() == if kind == DATA_TYPE then Feed(base, hisQuote, payload + [c]) else base
      ensures kind == SEND_TYPE ==> Kept(payload + [c])
    {
      hide Feed, FeedChar;
      FeedMore(base, hisQuote, payload, c);
      if kind == DATA_TYPE {
        KDataChar(c);
      } else if kind == SEND_TYPE {
        KeepParm(c, payload);
      }
    }

    /** Brings in the check and the end of line. */
    method GetEnd(n: Byte, kind: Byte, sum: nat, ghost payload: seq<Byte>, ghost e: Event,
                  ghost more: seq<Byte>)
      returns (ok: bool)
      requires Valid() && pos < |input| && ParseEnd(n, kind, sum, payload, Rest()) == Got(e, more)
      modifies `pos
      ensures Valid() && Rest() == more && e == if ok then Good(n, kind, payload) else Bad(n)
    {
      hide Check, ToChar;
      var c := Getc();
      if Control(c) {
        return false;
      }
      if c != ToChar(Check(sum)) {
        return false;
      }
      c := Getc();
      return c == END_CHAR;
    }

    /** Brings in the data, the check and the end of line. */
    method GetData(n: Byte, kind: Byte, length0: int, sum0: nat, ghost e: Event,
                   ghost more: seq<Byte>)
      returns (ok: bool)
      requires Valid() && Current() == Saved() && sendPtr == 0
      requires ParseData(n, kind, length0, sum0, [], Rest()) == Got(e, more)
      modifies `pos, ram, `kDataEscape, `osDataAddr, sendParms, `sendPtr
      ensures Valid() && Rest() == more && Saved() == old(Saved())
      ensures Received(ok, n, kind, e, Saved())
    {
      hide Feed, ParseEnd, Current, Saved, Kept;
      var length: int, sum: nat := length0, sum0;
      ghost var base, payload: seq<Byte> := Saved(), [];
      NothingYet(base);
      while length > 1
        invariant Valid() && Saved() == base
        invariant Current() == if kind == DATA_TYPE then Feed(base, hisQuote, payload) else base
        invariant kind == SEND_TYPE ==> Kept(payload)
        invariant ParseData(n, kind, length, sum, payload, Rest()) == Got(e, more)
        decreases length
      {
        var c := Getc();
        if Control(c) {
          return false;
        }
        sum := sum + c;
        length := length - 1;
        PassOn(kind, c, base, payload);
        payload := payload + [c];
      }
      ok := GetEnd(n, kind, sum, payload, e, more);
    }

    lemma NothingYet(base: Decoder)
      ensures Feed(base, hisQuote, []) == base
      ensures sendParms.Length == SEND_DATA_SIZE && sendPtr == 0 ==> Kept([])
    {
    }

    /** Brings in the type and, for an extended packet, the two characters of the length and the check of the header. */
    method GetKind(n: Byte, length0: int, sum0: nat, ghost e: Event, ghost more: seq<Byte>)
      returns (ok: bool, kind: Byte)
      requires Valid() && Current() == Saved() && sendPtr == 0
      requires ParseKind(n, length0, sum0, Rest()) == Got(e, more)
      modifies `pos, ram, `kDataEscape, `osDataAddr, sendParms, `sendPtr
      ensures Valid() && Rest() == more && Saved() == old(Saved())
      ensures Received(ok, n, kind, e, Saved())
    {
      hide ParseData, Feed, Check;
      kind := Getc();
      if Control(kind) {
        return false, kind;
      }
      var sum: nat := sum0 + kind;
      var length := length0 - 1;
      if length == -2 {
        var hi := Getc();
        if Control(hi) {
          return false, kind;
        }
        sum := sum + hi;
        var lo := Getc();
        if Control(lo) {
          return false, kind;
        }
        sum := sum + lo;
        length := UnChar(hi) * 95 + UnChar(lo);
        var c := Getc();
        if Control(c) {
          return false, kind;
        }
        if c != ToChar(Check(sum)) {
          return false, kind;
        }
        sum := sum + c;
      }
      ok := GetData(n, kind, length, sum, e, more);
    }

    /** The receiver agrees with the machine. */
    ghost predicate Agrees(m: Machine)
      requires osDataAddr <= ram.Length && osDataAddrSaved <= ram.Length
      reads `kDataEscape, `kDataEscapeSaved, `osDataAddr, `osDataAddrSaved, `hisEol, `hisPadCount, `hisPadChar,
            `hisQuote, ram
    {
      Current() == m.cur && Saved() == m.saved && TheParms() == m.parms
    }

    /** Receives everything behind a start character; a new sequence number moves the checkpoint, a repeated one goes
        back to it. */
    method GetPacket(n0: Byte, lastN0: int, ghost m: Machine, ghost e: Event, ghost more: seq<Byte>)
      returns (ok: bool, n: Byte, lastN: int, kind: Byte)
      requires Valid() && Agrees(m) && m.lastN == lastN0 && sendPtr == 0
      requires ParsePacket(Rest()) == Got(e, more)
      modifies `pos, ram, `kDataEscape, `osDataAddr, sendParms, `sendPtr, `kDataEscapeSaved, `osDataAddrSaved
      ensures Valid() && Rest() == more && TheParms() == m.parms
      ensures e == Early ==> !ok && n == n0 && lastN == lastN0 && Saved() == m.saved
      ensures e != Early ==> n == lastN == e.n < 224 && Saved() == Base(m, n) && Received(ok, n, kind, e, Base(m, n))
    {
      hide ParseKind, Feed;
      ok, n, lastN, kind := false, n0, lastN0, 0;
      var c := Getc();
      if Control(c) {
        return;
      }
      var sum: nat := c;
      var length: int := UnChar(c);
      c := Getc();
      if Control(c) {
        return;
      }
      sum := sum + c;
      n := UnChar(c);
      if n == lastN {
        KDataRestore();
      } else {
        lastN := n;
        KDataSave();
      }
      ParseKindIs(n, length - 1, sum, Rest());
      ok, kind := GetKind(n, length - 1, sum, e, more);
    }

    /** Skips what precedes a packet. */
    method WaitStart() returns (interrupted: bool)
      requires Valid() && !Wait(Rest()).Dry?
      modifies `pos
      ensures Valid() && interrupted == Wait(old(Rest())).Interrupted? && Rest() == Wait(old(Rest())).rest
    {
      while true
        invariant Valid() && Wait(Rest()) == Wait(old(Rest())) && !Wait(Rest()).Dry?
        decreases |input| - pos
      {
        var c := Getc();
        if c == START_CHAR {
          return false;
        } else if c == ETX_CHAR {
          return true;
        }
      }
    }

    /** Receives and answers one packet. */
    method KPacket(n0: Byte, lastN0: int, ghost m: Machine, ghost e: Event, ghost more: seq<Byte>)
      returns (n: Byte, lastN: int, done: bool)
      requires Valid() && Agrees(m) && m.lastN == lastN0 && -1 <= lastN0 < 224 && n0 == AnswerN(m) && sendPtr == 0
      requires ParsePacket(Rest()) == Got(e, more)
      modifies this, ram, sendParms, aB
      ensures Valid() && Rest() == more && Agrees(Step(m, e)) && ram[..osDataAddr] == Step(m, e).cur.bytes
      ensures lastN == Step(m, e).lastN && -1 <= lastN < 224 && n == AnswerN(Step(m, e))
      ensures output == old(output) + AnswerTo(Step(m, e), e) && done == IsBreak(e)
    {
      hide ParsePacket, Feed, ParmsOf, Answer, Padding;
      var ok, kind;
      done := false;
      ok, n, lastN, kind := GetPacket(n0, lastN0, m, e, more);
      if !ok {
        KDataRestore();
        SendNack(n);
      } else if kind == SEND_TYPE {
        HandleSendPacket(n, e.payload);
      } else {
        SendAck(n);
        done := kind == BREAK_TYPE;
      }
      hide Offer;
      AnswerParts(Step(m, e), e);
    }

    /** Between two packets the receiver agrees with the machine that has seen the same. */
    ghost predicate Between(seen: seq<Event>, n: Byte, lastN: int)
      reads this, ram
    {
      && Valid() && Agrees(After(seen)) && After(seen).lastN == lastN && -1 <= lastN < 224
      && n == AnswerN(After(seen)) && ram[..osDataAddr] == After(seen).cur.bytes
    }

    /** What has been seen, and what is still to come, make up the log. */
    ghost predicate Ahead(done: bool, seen: seq<Event>, log: Log)
      reads `pos
    {
      if done then log == Log(seen, false)
      else pos <= |input| && Session(Rest()).Some? && log == Later(seen, Session(Rest()).value)
    }

    /** Waits for a packet, and receives and answers it. */
    method KRound(n0: Byte, lastN0: int, ghost seen: seq<Event>, ghost log: Log)
      returns (n: Byte, lastN: int, done: bool, interrupted: bool, ghost e: Event)
      requires Between(seen, n0, lastN0) && Ahead(false, seen, log)
      modifies this, ram, sendParms, aB
      ensures old(pos) < pos <= |input|
      ensures interrupted ==> Between(seen, n, lastN) && log == Log(seen, true) && output == old(output)
      ensures !interrupted ==>
                && Between(seen + [e], n, lastN) && Ahead(done, seen + [e], log)
                && output == old(output) + AnswerTo(After(seen + [e]), e)
    {
      hide Session, ParsePacket, Wait, AnswerTo, Step, After, Answers, AnswerN, Later, Agrees, Current, Saved, TheParms;
      sendPtr := 0;
      n, lastN, done, e := n0, lastN0, true, Early;
      SessionStep(Rest(), seen);
      interrupted := WaitStart();
      if !interrupted {
        ghost var parsed := ParsePacket(Rest());
        e := parsed.event;
        AfterStep(seen, e);
        n, lastN, done := KPacket(n, lastN, After(seen), e, parsed.rest);
      }
    }

    method Begin()
      requires Valid() && osDataAddr == 0
      modifies this
      ensures pos == old(pos) && output == old(output) && Between([], 0, -1)
    {
      hisEol := END_CHAR;
      hisPadCount := 0;
      hisPadChar := 0;
      hisQuote := K_ESCAPE;
      kDataEscape := false;
      osDataAddr := 0;
      KDataSave();
    }

    /** Receives packets until the transmission is broken off or interrupted. */
    method KLoop(ghost log: Log) returns (size: nat)
      requires Between([], 0, -1) && Ahead(false, [], log)
      modifies this, ram, sendParms, aB
      ensures Valid() && ram[..osDataAddr] == After(log.events).cur.bytes
      ensures size == if log.interrupted then 0 else osDataAddr
      ensures output == old(output) + Answers(log.events)
    {
      hide Ahead, After, AnswerTo, Agrees, AnswerN, Answers;
      var done := false;
      var n: Byte, lastN := 0, -1;
      ghost var seen: seq<Event> := [];
      NothingSent();
      while !done
        invariant Between(seen, n, lastN) && Ahead(done, seen, log)
        invariant output == old(output) + Answers(seen)
        decreases !done, |input| - pos
      {
        var interrupted;
        ghost var e;
        n, lastN, done, interrupted, e := KRound(n, lastN, seen, log);
        if interrupted {
          return 0;
        }
        AfterStep(seen, e);
        seen := seen + [e];
      }
      AheadDone(seen, log);
      size := osDataAddr;
    }

    lemma AheadDone(seen: seq<Event>, log: Log)
      requires Ahead(true, seen, log)
      ensures log == Log(seen, false)
    {
    }

    /** Receives a file; the result is its length, or 0 if reception was interrupted. */
    method KRecv() returns (size: nat)
      requires Valid() && osDataAddr == 0 && Session(Rest()).Some?
      modifies this, ram, sendParms, aB
      ensures Valid()
      ensures var log := Session(old(Rest())).value;
              && ram[..osDataAddr] == Content(log.events).bytes
              && size == (if log.interrupted then 0 else |Content(log.events).bytes|)
              && output == old(output) + Answers(log.events)
    {
      hide Session, Content, After, Answers, Between;
      ghost var log := Session(Rest()).value;
      LaterNothing(log);
      ReceiverContent(log.events);
      Begin();
      size := KLoop(log);
    }
  }

  lemma NothingSent()
    ensures Answers([]) == []
  {
  }

  /** A log that comes after the events seen. */
  function Later(seen: seq<Event>, log: Log): Log {
    Log(seen + log.events, log.interrupted)
  }

  lemma LaterNothing(log: Log)
    ensures Later([], log) == log
  {
  }

  lemma AnswerParts(m: Machine, e: Event)
    requires -1 <= m.lastN < 256
    ensures AnswerTo(m, e) == Padding(m.parms) +
                              Answer(AnswerN(m), if e.Good? then ACK_TYPE else NACK_TYPE,
                                     if e.Good? && e.kind == SEND_TYPE then Offer(e.payload) else [], m.parms.eol)
  {
  }

  lemma AfterStep(seen: seq<Event>, e: Event)
    ensures After(seen + [e]) == Step(After(seen), e)
    ensures -1 <= Step(After(seen), e).lastN < 256 ==>
              Answers(seen + [e]) == Answers(seen) + AnswerTo(Step(After(seen), e), e)
  {
    hide Step, AnswerTo;
    assert (seen + [e])[..|seen|] == seen;
  }

  lemma PrintableChars(n: Byte, length: nat)
    requires n < 224 && length <= 16
    ensures ToChar(n) != 0 && ToChar(length) != 0
  {
  }

  /** An answer is the packet up to the first null character, which only the end of line can be. */
  lemma AnswerIs(n: Byte, kind: Byte, data: seq<Byte>, eol: Byte)
    ensures var body := [ToChar(|data| + 3), ToChar(n), kind] + data;
            var s := [START_CHAR] + body + [ToChar(Check(Sum(body)))] + [eol];
            Answer(n, kind, data, eol) == if eol == 0 then s[..|s| - 1] else s
  {
    hide Sum, Check, ToChar;
  }

  lemma FeedMore(d: Decoder, quote: Byte, payload: seq<Byte>, c: Byte)
    ensures Feed(d, quote, payload + [c]) == FeedChar(Feed(d, quote, payload), quote, c)
  {
    assert (payload + [c])[..|payload|] == payload;
  }

  lemma {:induction false} ParseDataIs(n: Byte, kind: Byte, length: int, sum: nat, payload: seq<Byte>, s: seq<Byte>)
    ensures var r := ParseData(n, kind, length, sum, payload, s); r.Got? ==> r.event != Early && r.event.n == n
    decreases |s|
  {
    if s != [] && length > 1 && !Control(s[0]) {
      ParseDataIs(n, kind, length - 1, sum + s[0], payload + [s[0]], s[1..]);
    }
  }

  lemma ParseKindIs(n: Byte, length: int, sum: nat, s: seq<Byte>)
    ensures var r := ParseKind(n, length, sum, s); r.Got? ==> r.event != Early && r.event.n == n
  {
    hide ParseData, Check;
    if |s| > 0 {
      var t := s[1..];
      ParseDataIs(n, s[0], length - 1, sum + s[0], [], t);
      if |t| > 2 {
        ParseDataIs(n, s[0], UnChar(t[0]) * 95 + UnChar(t[1]), sum + s[0] + t[0] + t[1] + t[2], [], t[3..]);
      }
    }
  }

  /** Everything that is sent while the events happen. */
  function Answers(events: seq<Event>): seq<Byte> {
    if events == [] then []
    else
      var m := After(events);
      Answers(events[..|events| - 1]) + (if -1 <= m.lastN < 256 then AnswerTo(m, events[|events| - 1]) else [])
  }

  lemma SessionStep(s: seq<Byte>, seen: seq<Event>)
    requires Session(s).Some?
    ensures Later([], Session(s).value) == Session(s).value
    ensures !Wait(s).Dry?
    ensures Wait(s).Interrupted? ==> Later(seen, Session(s).value) == Log(seen, true)
    ensures Wait(s).Started? ==>
              var r := ParsePacket(Wait(s).rest);
              && r.Got?
              && (IsBreak(r.event) ==> Later(seen, Session(s).value) == Log(seen + [r.event], false))
              && (!IsBreak(r.event) ==>
                    Session(r.rest).Some? &&
                    Later(seen, Session(s).value) == Later(seen + [r.event], Session(r.rest).value))
  {
    hide ParsePacket, Wait;
    var log := Session(s).value;
    assert seen + [] == seen && [] + log.events == log.events;
    if Wait(s).Started? {
      var r := ParsePacket(Wait(s).rest);
      if !IsBreak(r.event) {
        var later := Session(r.rest).value;
        assert seen + ([r.event] + later.events) == seen + [r.event] + later.events;
      }
    }
  }

  /** Where the pointer into the parameter buffer stands after `n` characters. */
  function SlotsFor(n: nat): nat {
    if n < SEND_DATA_SIZE then n else SEND_DATA_SIZE - 1
  }
}
