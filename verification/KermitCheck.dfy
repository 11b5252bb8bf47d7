/** The block check of Kermit packets against the program's shifts and masks, what it notices, and packets byte by byte
    (u-boot-v1.2/common/cmd_load.c; Kermit Protocol Manual, sixth edition, section 6). */
module KermitCheck {
  import opened Basics
  import opened Kermit
  import opened KermitPackets
  import opened KermitTransfer

  // ---------------------------------------------------------------- the check in bits

  function High(s: bv32): bv24 {
    (s >> 8) as bv24
  }

  function Low(s: bv32): bv8 {
    (s & 0xff) as bv8
  }

  function Joined(high: bv24, low: bv8): bv32 {
    ((high as bv32) << 8) | (low as bv32)
  }

  function Wide(b: bv8): bv32 {
    b as bv32
  }

  /** What the program computes, of a byte and of a word. */
  function MaskedByte(b: bv8): bv8 {
    (b + ((b >> 6) & 0x03)) & 0x3f
  }

  function MaskedWord(s: bv32): bv32 {
    (s + ((s >> 6) & 0x03)) & 0x3f
  }

  function WordNumber(s: bv32): nat {
    s as int
  }

  function HighNumber(s: bv24): nat {
    s as int
  }

  function ByteNumber(s: bv8): nat {
    s as int
  }

  lemma WordOfBytes(high: bv24, low: bv8)
    ensures WordNumber(Joined(high, low)) == HighNumber(high) * 256 + ByteNumber(low)
  {
  }

  lemma ByteAsWord(b: bv8)
    ensures WordNumber(Wide(b)) == ByteNumber(b)
  {
  }

  /** Only the lowest byte of a sum counts. */
  lemma Halves(s: bv32)
    ensures s == Joined(High(s), Low(s)) && MaskedWord(s) == Wide(MaskedByte(Low(s)))
  {
  }

  function Upper(b: bv8): bv8 {
    (b >> 6) & 0x03
  }

  lemma UpperBits(b: bv8)
    ensures ByteNumber(Upper(b)) == (ByteNumber(b) / 64) % 4 && Upper(b) in {0, 1, 2, 3}
  {
  }

  lemma SmallNumbers()
    ensures ByteNumber(0) == 0 && ByteNumber(1) == 1 && ByteNumber(2) == 2 && ByteNumber(3) == 3
  {
  }

  function Plus(b: bv8, y: bv8): bv8 {
    b + y
  }

  lemma AddOne(b: bv8)
    ensures ByteNumber(Plus(b, 1)) == (ByteNumber(b) + 1) % 256
  {
  }

  lemma Steps(b: bv8)
    ensures Plus(b, 0) == b && Plus(Plus(b, 1), 1) == Plus(b, 2) && Plus(Plus(b, 2), 1) == Plus(b, 3)
  {
  }

  lemma AddSmall(b: bv8, y: bv8)
    requires y in {0, 1, 2, 3}
    ensures ByteNumber(Plus(b, y)) == (ByteNumber(b) + ByteNumber(y)) % 256
  {
    InByte(b);
    hide ByteNumber, Plus;
    SmallNumbers();
    Steps(b);
    AddOne(b);
    AddOne(Plus(b, 1));
    AddOne(Plus(b, 2));
  }

  lemma InByte(b: bv8)
    ensures ByteNumber(b) < 256
  {
  }

  lemma LowSix(x: bv8)
    ensures ByteNumber(x & 0x3f) == ByteNumber(x) % 64
  {
  }

  lemma MaskedIs(b: bv8)
    ensures MaskedByte(b) == Plus(b, Upper(b)) & 0x3f
  {
  }

  lemma CheckAsSum(n: nat, u: nat)
    ensures u == (n / 64) % 4 ==> Check(n) == ((n + u) % 256) % 64
  {
    assert ((n + u) % 256) % 64 == (n + u) % 64;
  }

  lemma ByteCheck(b: bv8)
    ensures Check(ByteNumber(b)) == ByteNumber(MaskedByte(b))
  {
    hide ByteNumber, Plus, Upper, MaskedByte, Check;
    CheckAsSum(ByteNumber(b), ByteNumber(Upper(b)));
    UpperBits(b);
    AddSmall(b, Upper(b));
    LowSix(Plus(b, Upper(b)));
    MaskedIs(b);
  }

  lemma LowByteCounts(h: nat, b: nat)
    ensures Check(h * 256 + b) == Check(b)
  {
    var u := (b / 64) % 4;
    assert (h * 256 + b) / 64 == 4 * h + b / 64;
    assert (4 * h + b / 64) % 4 == u;
    assert h * 256 + b + u == 64 * (4 * h) + (b + u);
  }

  /** The block check is what the program's shifts and masks make of every sum of 32 bits. */
  lemma CheckBits(s: bv32)
    ensures Check(s as int) == ((s + ((s >> 6) & 0x03)) & 0x3f) as int
  {
    assert Check(WordNumber(s)) == WordNumber(MaskedWord(s)) by {
      hide Check, WordNumber, MaskedWord, MaskedByte, High, Low, Joined, Wide, HighNumber, ByteNumber;
      Halves(s);
      WordOfBytes(High(s), Low(s));
      LowByteCounts(HighNumber(High(s)), ByteNumber(Low(s)));
      ByteAsWord(MaskedByte(Low(s)));
      ByteCheck(Low(s));
    }
  }

  // ---------------------------------------------------------------- what the check notices

  lemma CheckParts(q: nat, r: nat)
    requires r < 64
    ensures Check(64 * q + r) == (r + q % 4) % 64
  {
    assert (64 * q + r) / 64 == q;
    assert 64 * q + r + q % 4 == 64 * q + (r + q % 4);
  }

  lemma SmallSteps(r: nat, a: nat, b: nat)
    requires a < 4 && b < 4 && a != b
    ensures (r + a) % 64 != (r + b) % 64
  {
  }

  /** A sum that is off by the upper two bits of a byte has another check. */
  lemma CheckNoticesUpperBits(sum: nat, k: nat)
    requires 0 < k < 4
    ensures Check(sum + 64 * k) != Check(sum)
  {
    hide Check;
    var q, r := sum / 64, sum % 64;
    assert sum == 64 * q + r && sum + 64 * k == 64 * (q + k) + r;
    CheckParts(q, r);
    CheckParts(q + k, r);
    SmallSteps(r, q % 4, (q + k) % 4);
  }

  /** So has one that is off in its lower six bits without a carry. */
  lemma CheckNoticesLowerBits(sum: nat, k: nat)
    requires 0 < k < 64 && sum % 64 + k < 64
    ensures Check(sum + k) != Check(sum)
  {
  }

  // ---------------------------------------------------------------- packets byte by byte

  /** The characters of a packet in front of its data, as numbers. */
  lemma HeaderBytes(n: Byte, kind: Byte, data: seq<Byte>)
    requires n < 224
    ensures Framable(data, Normal) ==> Header(n, kind, data, Normal) == [35 + |data|, 32 + n, kind]
    ensures Framable(data, Extended) ==>
              var k := |data| + 1;
              var sum := 32 + (32 + n) + kind + (32 + k / 95) + (32 + k % 95);
              Header(n, kind, data, Extended) == [32, 32 + n, kind, 32 + k / 95, 32 + k % 95, 32 + Check(sum)]
  {
    hide Sum, Check;
    if Framable(data, Extended) {
      var k := |data| + 1;
      assert k / 95 <= 94;
      Sum5(32, 32 + n, kind, 32 + k / 95, 32 + k % 95);
      CheckSmall(32 + (32 + n) + kind + (32 + k / 95) + (32 + k % 95));
    }
  }

  lemma CheckSmall(sum: nat)
    ensures Check(sum) < 64 && ToChar(Check(sum)) == 32 + Check(sum)
  {
  }

  /** The end of a packet, as numbers. */
  lemma PacketEnd(n: Byte, kind: Byte, data: seq<Byte>, framing: Framing)
    requires Framable(data, framing)
    ensures var body := Header(n, kind, data, framing) + data;
            Packet(n, kind, data, framing) == body + [32 + Check(Sum(body)), 13]
  {
    hide Sum, Check, Header;
    CheckSmall(Sum(Header(n, kind, data, framing) + data));
  }

  /** The packet that ends a transmission, as it is on the line. */
  lemma BreakPacketExample()
    ensures Packet(0, 0x42, [], Normal) == [0x23, 0x20, 0x42, 0x27, 0x0d]
    ensures ParsePacket([0x23, 0x20, 0x42, 0x27, 0x0d]) == Got(Good(0, 0x42, []), [])
  {
    hide Sum, Header, ParsePacket;
    HeaderBytes(0, 0x42, []);
    Sum3(0x23, 0x20, 0x42);
    assert [0x23, 0x20, 0x42] + [] == [0x23, 0x20, 0x42];
    PacketParses(0, 0x42, [], Normal, []);
    assert [0x23, 0x20, 0x42, 0x27, 0x0d] + [] == [0x23, 0x20, 0x42, 0x27, 0x0d];
  }

  /** A data packet. */
  lemma DataPacketExample()
    ensures Packet(1, 0x44, [0x41, 0x23], Normal) == [0x25, 0x21, 0x44, 0x41, 0x23, 0x51, 0x0d]
  {
    hide Sum, Header;
    HeaderBytes(1, 0x44, [0x41, 0x23]);
    Sum5(0x25, 0x21, 0x44, 0x41, 0x23);
    assert [0x25, 0x21, 0x44] + [0x41, 0x23] == [0x25, 0x21, 0x44, 0x41, 0x23];
  }

  /** A data packet with an extended length. */
  lemma LongPacketExample()
    ensures Packet(2, 0x44, [0x5a], Extended) == [0x20, 0x22, 0x44, 0x20, 0x22, 0x2b, 0x5a, 0x2e, 0x0d]
    ensures ParsePacket([0x20, 0x22, 0x44, 0x20, 0x22, 0x2b, 0x5a, 0x2e, 0x0d]) == Got(Good(2, 0x44, [0x5a]), [])
  {
    hide Sum, Header, ParsePacket;
    HeaderBytes(2, 0x44, [0x5a]);
    Sum5(0x20, 0x22, 0x44, 0x20, 0x22);
    assert [0x20, 0x22, 0x44, 0x20, 0x22, 0x2b] + [0x5a] == [0x20, 0x22, 0x44, 0x20, 0x22] + [0x2b, 0x5a];
    SumJoin([0x20, 0x22, 0x44, 0x20, 0x22], [0x2b, 0x5a]);
    assert [0x2b, 0x5a] == [0x2b] + [0x5a];
    SumJoin([0x2b], [0x5a]);
    SumOne(0x2b);
    SumOne(0x5a);
    PacketParses(2, 0x44, [0x5a], Extended, []);
    var line := [0x20, 0x22, 0x44, 0x20, 0x22, 0x2b, 0x5a, 0x2e, 0x0d];
    assert line + [] == line;
  }

  /** How a byte is quoted with a number sign: control characters, the quote itself and others. */
  lemma EncodeExamples()
    ensures EncodeByte(0x01, 0x23) == [0x23, 0x41] && EncodeByte(0x7f, 0x23) == [0x23, 0x3f]
    ensures EncodeByte(0x81, 0x23) == [0x23, 0xc1] && EncodeByte(0x23, 0x23) == [0x23, 0x23]
    ensures EncodeByte(0xa3, 0x23) == [0x23, 0xa3] && EncodeByte(0x41, 0x23) == [0x41]
  {
  }

  // ---------------------------------------------------------------- damaged packets

  /** A packet whose check character is another printable one, or whose end of line is not a carriage return, counts as
      damaged after its number. */
  lemma DamagedPacket(n: Byte, kind: Byte, data: seq<Byte>, framing: Framing, check: Byte, eol: Byte, rest: seq<Byte>)
    requires Framable(data, framing) && n < 224 && !Control(kind) && Printable(data) && !Control(check)
    ensures var body := Header(n, kind, data, framing) + data;
            var sum := Sum(body);
            ParsePacket(body + [check, eol] + rest) ==
            if check != 32 + Check(sum) then Got(Bad(n), [eol] + rest)
            else if eol != 13 then Got(Bad(n), rest)
            else Got(Good(n, kind, data), rest)
  {
    hide Check, Sum, ParseData, ParsePacket, Header;
    var head := Header(n, kind, data, framing);
    var tail := data + [check, eol] + rest;
    assert head + data + [check, eol] + rest == head + tail;
    if framing == Normal {
      NormalHeaderParses(n, kind, data, tail);
    } else {
      ExtendedHeaderParses(n, kind, data, tail);
    }
    SumJoin(head, data);
    DataEnds(n, kind, Sum(head), [], data, check, eol, rest, |data| + 1);
    assert [] + data == data;
  }

  /** A character with none of its three upper bits set is an error wherever it stands: as length or sequence number
      it leaves the packet without a number, as type it is an error behind the number. */
  lemma UnreadableHeader(length: Byte, number: Byte, kind: Byte, rest: seq<Byte>)
    ensures length < 32 ==> ParsePacket([length, number, kind] + rest) == Got(Early, [number, kind] + rest)
    ensures length >= 32 && number < 32 ==> ParsePacket([length, number, kind] + rest) == Got(Early, [kind] + rest)
    ensures length >= 32 && number >= 32 && kind < 32 ==>
              ParsePacket([length, number, kind] + rest) == Got(Bad(number - 32), rest)
  {
    var s := [length, number, kind] + rest;
    assert s[1..] == [number, kind] + rest && s[2..] == [kind] + rest && ([kind] + rest)[1..] == rest;
  }

  /** So is one among the data, or in the place of the check. */
  lemma {:induction false} UnreadableData(n: Byte, kind: Byte, data: seq<Byte>, c: Byte, length: nat, rest: seq<Byte>,
                                          sum: nat, payload: seq<Byte>)
    requires Printable(data) && c < 32 && |data| < length
    ensures ParseData(n, kind, length, sum, payload, data + [c] + rest) == Got(Bad(n), rest)
    decreases |data|
  {
    var s := data + [c] + rest;
    if data == [] {
      assert s == [c] + rest && s[1..] == rest;
    } else {
      assert s[1..] == data[1..] + [c] + rest;
      UnreadableData(n, kind, data[1..], c, length - 1, rest, sum + data[0], payload + [data[0]]);
    }
  }

  lemma {:induction false} DataEnds(n: Byte, kind: Byte, sum: nat, payload: seq<Byte>, data: seq<Byte>, check: Byte,
                                    eol: Byte, rest: seq<Byte>, length: int)
    requires Printable(data) && length == |data| + 1 && !Control(check)
    ensures ParseData(n, kind, length, sum, payload, data + [check, eol] + rest) ==
            if check != 32 + Check(sum + Sum(data)) then Got(Bad(n), [eol] + rest)
            else if eol != 13 then Got(Bad(n), rest)
            else Got(Good(n, kind, payload + data), rest)
    decreases |data|
  {
    var s := data + [check, eol] + rest;
    CheckSmall(sum + Sum(data));
    hide Check;
    if data == [] {
      assert s == [check, eol] + rest && s[1..] == [eol] + rest && s[2..] == rest && payload + data == payload;
    } else {
      assert s[1..] == data[1..] + [check, eol] + rest;
      assert data == [data[0]] + data[1..];
      SumJoin([data[0]], data[1..]);
      SumOne(data[0]);
      DataEnds(n, kind, sum + data[0], payload + [data[0]], data[1..], check, eol, rest, length - 1);
      assert payload + [data[0]] + data[1..] == payload + data;
    }
  }

  // ---------------------------------------------------------------- parameters and answers

  /** The parameters of a send-initiate packet as a sender writes them: longest packet, time-out, number of padding
      characters, padding character, end of line, quote. */
  function Wishes(p: Parms, longest: Byte, timeout: Byte): seq<Byte>
    requires p.padCount < 224 && p.eol < 224
  {
    [longest, timeout, 32 + p.padCount, if p.padChar < 64 then p.padChar + 64 else p.padChar - 64, 32 + p.eol, p.quote]
  }

  /** The receiver takes a sender's wishes as they were meant, whatever parameters follow, and the defaults for those
      that are not given. */
  lemma WishesTaken(p: Parms, longest: Byte, timeout: Byte, more: seq<Byte>)
    requires p.padCount < 224 && p.eol < 224 && (p.padChar < 32 || p.padChar == 127)
    ensures ParmsOf(Wishes(p, longest, timeout) + more) == p
    ensures ParmsOf(Wishes(p, longest, timeout)[..5]) == p.(quote := 0x23)
    ensures ParmsOf(Wishes(p, longest, timeout)[..4]) == Parms(13, p.padCount, p.padChar, 0x23)
    ensures ParmsOf(Wishes(p, longest, timeout)[..3]) == Parms(13, p.padCount, 0, 0x23)
    ensures ParmsOf(Wishes(p, longest, timeout)[..2]) == Parms(13, 0, 0, 0x23)
  {
  }

  /** What is offered to a sender: packets of 94 characters, a second's patience, no padding, a carriage return, the
      number sign, no eight-bit prefix, the one-character check, no repeat prefix, long packets of 94 * 95 + 94
      characters; only as many answers as there are parameters. */
  lemma OfferBytes(payload: seq<Byte>)
    ensures |payload| < 10 ==>
              Offer(payload) == [32 + 94, 32 + 1, 32 + 0, 0x40, 32 + 13, 0x23, 0x4e, 0x31, 0x4e, 32 + 2][..|payload|]
    ensures |payload| >= 10 ==>
              Offer(payload) ==
              [32 + 94, 32 + 1, 32 + 0, 0x40, 32 + 13, 0x23, 0x4e, 0x31, 0x4e, 32 + 2] + [32 + 0, 32 + 94, 32 + 94]
  {
  }

  /** An answer carries the number of the packet it answers; before its number was read, that of the packet before. */
  lemma AnswerNumbers(m: Machine, e: Event)
    requires -1 <= m.lastN < 256
    ensures !e.Early? ==> AnswerN(Step(m, e)) == e.n
    ensures e.Early? ==> AnswerN(Step(m, e)) == AnswerN(m)
    ensures AnswerN(INITIAL) == 0
  {
  }

  /** A sender that wants padding gets it in front of every answer, and one that wants a null character as end of line
      gets none. */
  lemma AnswerFraming(m: Machine, n: Byte)
    requires m.lastN == n && n < 64
    ensures var sum := 35 + (32 + n) + 0x4e;
            AnswerTo(m, Bad(n)) ==
            seq(m.parms.padCount, _ => m.parms.padChar) + [1, 35, 32 + n, 0x4e, 32 + Check(sum)] +
            if m.parms.eol == 0 then [] else [m.parms.eol]
  {
    hide Sum;
    Sum3(35, 32 + n, 0x4e);
    CheckSmall(35 + (32 + n) + 0x4e);
    hide Check;
    assert [35, 32 + n, 0x4e] + [] == [35, 32 + n, 0x4e];
  }

  /** The answers to a good and to a damaged packet, as they are on the line. */
  lemma AnswerExamples()
    ensures AnswerTo(INITIAL.(lastN := 0), Good(0, 0x42, [])) == [0x01, 0x23, 0x20, 0x59, 0x3e, 0x0d]
    ensures AnswerTo(INITIAL.(lastN := 5), Bad(5)) == [0x01, 0x23, 0x25, 0x4e, 0x38, 0x0d]
    ensures AnswerTo(INITIAL, Early) == [0x01, 0x23, 0x20, 0x4e, 0x33, 0x0d]
  {
    Sum3(0x23, 0x20, 0x59);
    Sum3(0x23, 0x25, 0x4e);
    Sum3(0x23, 0x20, 0x4e);
    hide Sum;
    assert [0x23, 0x20, 0x59] + [] == [0x23, 0x20, 0x59];
    assert [0x23, 0x25, 0x4e] + [] == [0x23, 0x25, 0x4e];
    assert [0x23, 0x20, 0x4e] + [] == [0x23, 0x20, 0x4e];
    assert Padding(DEFAULT_PARMS) == [];
  }

  // ---------------------------------------------------------------- interruption

  /** An interrupt between packets ends reception without a result, whatever packets came before it. */
  lemma {:induction false} LineInterrupted(sents: seq<Sent>, junk: seq<Byte>, rest: seq<Byte>)
    requires AllValid(sents) && (forall p :: p in sents ==> p.kind != 0x42) && 1 !in junk && 3 !in junk
    ensures Session(Line(sents) + (junk + [3] + rest)) == Some(Log(Events(sents), true))
    decreases |sents|
  {
    hide Packet, ParsePacket, Wait;
    var s := Line(sents) + (junk + [3] + rest);
    if sents == [] {
      assert s == junk + [3] + rest;
      WaitInterrupted(junk, rest);
    } else {
      var p := sents[0];
      assert p in sents;
      var more := Line(sents[1..]) + (junk + [3] + rest);
      var packet := Packet(p.n, p.kind, p.data, p.framing);
      assert s == p.junk + [START_CHAR] + (packet + more);
      WaitSkips(p.junk, packet + more);
      PacketParses(p.n, p.kind, p.data, p.framing, more);
      LineInterrupted(sents[1..], junk, rest);
    }
  }

  lemma {:induction false} WaitInterrupted(junk: seq<Byte>, rest: seq<Byte>)
    requires 1 !in junk && 3 !in junk
    ensures Wait(junk + [3] + rest) == Interrupted(rest)
  {
    var s := junk + [3] + rest;
    if junk == [] {
      assert s[1..] == rest;
    } else {
      assert s[1..] == junk[1..] + [3] + rest;
      WaitInterrupted(junk[1..], rest);
    }
  }
}
