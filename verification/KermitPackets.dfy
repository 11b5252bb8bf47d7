/** The bytes of Kermit packets: how the receiver reads them off the line, how a sender builds them, and that a file
    sent in any packets arrives (u-boot-v1.2/common/cmd_load.c; Kermit Protocol Manual, sixth edition, section 6). */
module KermitPackets {
  import opened Basics
  import opened Kermit

  // ---------------------------------------------------------------- reading a packet off the line

  /** The packet at the front of the line and what follows it, unless the line runs dry. */
  datatype Parsed = Starved | Got(event: Event, rest: seq<Byte>)

  /** Everything after the start character. */
  function ParsePacket(s: seq<Byte>): (r: Parsed)
    ensures r.Got? ==> |r.rest| < |s|
  {
    if s == [] then Starved
    else if Control(s[0]) then Got(Early, s[1..])
    else if |s| == 1 then Starved
    else if Control(s[1]) then Got(Early, s[2..])
    else ParseKind(UnChar(s[1]), UnChar(s[0]) - 1, s[0] as nat + s[1], s[2..])
  }

  function ParseKind(n: Byte, length: int, sum: nat, s: seq<Byte>): (r: Parsed)
    ensures r.Got? ==> |r.rest| < |s|
  {
    if s == [] then Starved
    else if Control(s[0]) then Got(Bad(n), s[1..])
    else if length - 1 == -2 then ParseLong(n, s[0], sum + s[0], s[1..])
    else ParseData(n, s[0], length - 1, sum + s[0], [], s[1..])
  }

  /** The two characters of an extended length and the check of the header. */
  function ParseLong(n: Byte, kind: Byte, sum: nat, s: seq<Byte>): (r: Parsed)
    ensures r.Got? ==> |r.rest| < |s|
  {
    if s == [] then Starved
    else if Control(s[0]) then Got(Bad(n), s[1..])
    else if |s| == 1 then Starved
    else if Control(s[1]) then Got(Bad(n), s[2..])
    else if |s| == 2 then Starved
    else if Control(s[2]) || s[2] != ToChar(Check(sum + s[0] + s[1])) then Got(Bad(n), s[3..])
    else ParseData(n, kind, UnChar(s[0]) * 95 + UnChar(s[1]), sum + s[0] + s[1] + s[2], [], s[3..])
  }

  function ParseData(n: Byte, kind: Byte, length: int, sum: nat, payload: seq<Byte>, s: seq<Byte>): (r: Parsed)
    ensures r.Got? ==> |r.rest| < |s|
    decreases |s|
  {
    if s == [] then Starved
    else if length <= 1 then ParseEnd(n, kind, sum, payload, s)
    else if Control(s[0]) then Got(Bad(n), s[1..])
    else ParseData(n, kind, length - 1, sum + s[0], payload + [s[0]], s[1..])
  }

  function ParseEnd(n: Byte, kind: Byte, sum: nat, payload: seq<Byte>, s: seq<Byte>): (r: Parsed)
    requires s != []
    ensures r.Got? ==> |r.rest| < |s|
  {
    if Control(s[0]) || s[0] != ToChar(Check(sum)) then Got(Bad(n), s[1..])
    else if |s| == 1 then Starved
    else if s[1] != END_CHAR then Got(Bad(n), s[2..])
    else Got(Good(n, kind, payload), s[2..])
  }

  datatype Found = Dry | Interrupted(rest: seq<Byte>) | Started(rest: seq<Byte>)

  /** Skips what precedes a packet. */
  function Wait(s: seq<Byte>): (r: Found)
    ensures !r.Dry? ==> |r.rest| < |s|
  {
    if s == [] then Dry
    else if s[0] == START_CHAR then Started(s[1..])
    else if s[0] == ETX_CHAR then Interrupted(s[1..])
    else Wait(s[1..])
  }

  /** What happens until reception ends, and whether it was interrupted. */
  datatype Log = Log(events: seq<Event>, interrupted: bool)

  predicate IsBreak(e: Event) {
    e.Good? && e.kind == BREAK_TYPE
  }

  /** The events up to the end of reception, if the line holds that much. */
  function Session(s: seq<Byte>): Option<Log>
    decreases |s|
  {
    match Wait(s)
    case Dry => None
    case Interrupted(_) => Some(Log([], true))
    case Started(rest) =>
      match ParsePacket(rest)
      case Starved => None
      case Got(e, more) =>
        if IsBreak(e) then Some(Log([e], false))
        else
          match Session(more)
          case None => None
          case Some(log) => Some(Log([e] + log.events, log.interrupted))
  }

  // ---------------------------------------------------------------- building packets

  datatype Framing = Normal | Extended

  predicate Framable(data: seq<Byte>, framing: Framing) {
    if framing == Normal then |data| <= 91 else |data| + 1 <= 94 * 95 + 94
  }

  /** The header: length, number and type, and for an extended packet the two characters of its length and a check. */
  function Header(n: Byte, kind: Byte, data: seq<Byte>, framing: Framing): seq<Byte>
    requires Framable(data, framing)
  {
    if framing == Normal then [ToChar(|data| + 3), ToChar(n), kind]
    else
      var head := [ToChar(0), ToChar(n), kind, ToChar((|data| + 1) / 95), ToChar((|data| + 1) % 95)];
      head + [ToChar(Check(Sum(head)))]
  }

  /** A packet without its start character. */
  function Packet(n: Byte, kind: Byte, data: seq<Byte>, framing: Framing): seq<Byte>
    requires Framable(data, framing)
  {
    var body := Header(n, kind, data, framing) + data;
    body + [ToChar(Check(Sum(body))), END_CHAR]
  }

  predicate Printable(data: seq<Byte>) {
    forall c :: c in data ==> !Control(c)
  }

  lemma CheckCharacter(sum: nat)
    ensures !Control(ToChar(Check(sum)))
  {
  }

  lemma {:induction false} DataParses(n: Byte, kind: Byte, sum: nat, payload: seq<Byte>, data: seq<Byte>,
                                      rest: seq<Byte>, length: int)
    requires Printable(data) && (length == |data| + 1 || (data == [] && length <= 1))
    ensures ParseData(n, kind, length, sum, payload, data + [ToChar(Check(sum + Sum(data))), END_CHAR] + rest) ==
            Got(Good(n, kind, payload + data), rest)
    decreases |data|
  {
    var tail := [ToChar(Check(sum + Sum(data))), END_CHAR] + rest;
    var s := data + [ToChar(Check(sum + Sum(data))), END_CHAR] + rest;
    assert s == data + tail;
    if data == [] {
      CheckCharacter(sum);
      assert s[2..] == rest && payload + data == payload;
    } else {
      assert s[1..] == data[1..] + tail;
      assert data == [data[0]] + data[1..];
      SumJoin([data[0]], data[1..]);
      SumOne(data[0]);
      DataParses(n, kind, sum + data[0], payload + [data[0]], data[1..], rest, length - 1);
      assert data[1..] + [ToChar(Check(sum + Sum(data))), END_CHAR] + rest == s[1..];
      assert payload + [data[0]] + data[1..] == payload + data;
    }
  }

  lemma Sum3(a: Byte, b: Byte, c: Byte)
    ensures Sum([a, b, c]) == a + b + c
  {
    assert [a, b, c] == [a, b] + [c] && [a, b] == [a] + [b];
    SumJoin([a, b], [c]);
    SumJoin([a], [b]);
    SumOne(a);
    SumOne(b);
    SumOne(c);
  }

  lemma Split95(k: nat)
    requires k <= 94 * 95 + 94
    ensures UnChar(ToChar(k / 95)) * 95 + UnChar(ToChar(k % 95)) == k
    ensures !Control(ToChar(k / 95)) && !Control(ToChar(k % 95))
  {
  }

  lemma CharBack(x: nat)
    requires x < 224
    ensures UnChar(ToChar(x)) == x && !Control(ToChar(x))
  {
  }

  lemma NormalHeaderParses(n: Byte, kind: Byte, data: seq<Byte>, tail: seq<Byte>)
    requires Framable(data, Normal) && n < 224 && !Control(kind) && tail != []
    ensures var head := Header(n, kind, data, Normal);
            ParsePacket(head + tail) == ParseData(n, kind, |data| + 1, Sum(head), [], tail)
  {
    hide Sum, ParseData, ToChar, UnChar, ParseLong;
    var head := Header(n, kind, data, Normal);
    var s := head + tail;
    Sum3(head[0], head[1], head[2]);
    CharBack(|data| + 3);
    CharBack(n);
    assert s[2..] == [kind] + tail && ([kind] + tail)[1..] == tail;
  }

  lemma Sum5(a: Byte, b: Byte, c: Byte, d: Byte, e: Byte)
    ensures Sum([a, b, c, d, e]) == a + b + c + d + e
  {
    assert [a, b, c, d, e] == [a, b, c] + [d] + [e];
    Sum3(a, b, c);
    SumJoin([a, b, c], [d]);
    SumJoin([a, b, c] + [d], [e]);
    SumOne(d);
    SumOne(e);
  }

  lemma ExtendedHeaderParses(n: Byte, kind: Byte, data: seq<Byte>, tail: seq<Byte>)
    requires Framable(data, Extended) && n < 224 && !Control(kind) && tail != []
    ensures var head := Header(n, kind, data, Extended);
            ParsePacket(head + tail) == ParseData(n, kind, |data| + 1, Sum(head), [], tail)
  {
    hide Check, Sum, ParseData, ToChar, UnChar, ParseLong;
    var k := |data| + 1;
    var five := [ToChar(0), ToChar(n), kind, ToChar(k / 95), ToChar(k % 95)];
    var check := ToChar(Check(Sum(five)));
    var head := Header(n, kind, data, Extended);
    assert head == five + [check];
    Sum5(five[0], five[1], five[2], five[3], five[4]);
    SumJoin(five, [check]);
    SumOne(check);
    CheckCharacter(Sum(five));
    Split95(k);
    var s := head + tail;
    CharBack(0);
    CharBack(n);
    assert s[2..] == [kind] + ([five[3], five[4], check] + tail);
    assert ([kind] + ([five[3], five[4], check] + tail))[1..] == [five[3], five[4], check] + tail;
    LongParses(n, kind, five[0] as nat + five[1] + five[2], five[3], five[4], check, tail);
    assert ParsePacket(s) == ParseKind(n, -1, five[0] as nat + five[1], s[2..]);
  }

  lemma LongParses(n: Byte, kind: Byte, sum: nat, hi: Byte, lo: Byte, check: Byte, tail: seq<Byte>)
    requires !Control(hi) && !Control(lo) && !Control(check) && check == ToChar(Check(sum + hi + lo))
    ensures ParseLong(n, kind, sum, [hi, lo, check] + tail) ==
            ParseData(n, kind, UnChar(hi) * 95 + UnChar(lo), sum + hi + lo + check, [], tail)
  {
    hide Check, ParseData;
    var s := [hi, lo, check] + tail;
    assert s[3..] == tail;
  }

  /** A packet that was built with correct checks is read off the line as what it was built from. */
  lemma PacketParses(n: Byte, kind: Byte, data: seq<Byte>, framing: Framing, rest: seq<Byte>)
    requires Framable(data, framing) && n < 224 && !Control(kind) && Printable(data)
    ensures ParsePacket(Packet(n, kind, data, framing) + rest) == Got(Good(n, kind, data), rest)
  {
    hide Check, Sum, ParseData, ParsePacket;
    var head := Header(n, kind, data, framing);
    SumJoin(head, data);
    var tail := data + [ToChar(Check(Sum(head) + Sum(data))), END_CHAR] + rest;
    assert Packet(n, kind, data, framing) + rest == head + tail;
    if framing == Normal {
      NormalHeaderParses(n, kind, data, tail);
    } else {
      ExtendedHeaderParses(n, kind, data, tail);
    }
    DataParses(n, kind, Sum(head), [], data, rest, |data| + 1);
    assert [] + data == data;
  }
}
