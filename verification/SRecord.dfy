/** Motorola S-records: writing memory out, reading it back in (u-boot-v1.2/common/cmd_load.c,
    u-boot-v1.2/common/s_record.c). */
module SRecord {
  import opened Basics

  const NUL: char := '\0'
  const BYTES_PER_RECORD: nat := 16
  const START_LINE: string := "S0030000FC\n"
  const END_LINE: string := "S70500000000FA\n"

  // ---------------------------------------------------------------- hexadecimal

  function HexDigit(v: nat): char
    requires v < 16
  {
    if v < 10 then '0' + v as char else 'A' + (v - 10) as char
  }

  function Hex2(b: Byte): (s: string)
    ensures |s| == 2
  {
    [HexDigit(b / 16), HexDigit(b % 16)]
  }

  /** The bytes of a 32-bit address, the highest first. */
  function AddressBytes(a: nat): (s: seq<Byte>)
    requires a < WORD_LIMIT
    ensures |s| == 4
  {
    [a / 256 / 256 / 256, a / 256 / 256 % 256, a / 256 % 256, a % 256]
  }

  function HexAll(bytes: seq<Byte>): (s: string)
    ensures |s| == 2 * |bytes|
  {
    if bytes == [] then "" else Hex2(bytes[0]) + HexAll(bytes[1..])
  }

  lemma {:induction false} HexJoin(a: seq<Byte>, b: seq<Byte>)
    ensures HexAll(a + b) == HexAll(a) + HexAll(b)
  {
    if a == [] {
      assert a + b == b;
    } else {
      HexJoin(a[1..], b);
      assert (a + b)[1..] == a[1..] + b;
      assert Hex2(a[0]) + (HexAll(a[1..]) + HexAll(b)) == Hex2(a[0]) + HexAll(a[1..]) + HexAll(b);
    }
  }

  // ---------------------------------------------------------------- records

  /** Everything that is summed up: length, address and data. */
  function Body(address: nat, data: seq<Byte>): (s: seq<Byte>)
    requires address < WORD_LIMIT && |data| <= 250
  {
    [5 + |data|] + AddressBytes(address) + data
  }

  function CheckByte(sum: nat): Byte {
    255 - sum % 256
  }

  /** A data record with a four-byte address, without its line end. */
  function Record(address: nat, data: seq<Byte>): string
    requires address < WORD_LIMIT && |data| <= 250
  {
    "S3" + HexAll(Body(address, data)) + Hex2(CheckByte(Sum(Body(address, data))))
  }

  /** A record fits its buffer, and its bytes with the checksum add up to 0xff. */
  lemma RecordFits(address: nat, data: seq<Byte>)
    requires address < WORD_LIMIT && |data| <= BYTES_PER_RECORD
    ensures |Record(address, data)| == 14 + 2 * |data|
    ensures |Record(address, data) + "\n" + [NUL]| <= 2 * BYTES_PER_RECORD + 16
    ensures (Sum(Body(address, data)) + CheckByte(Sum(Body(address, data)))) % 256 == 0xff
  {
  }

  /** The data in records of sixteen bytes; the last may be shorter. */
  function Records(address: nat, data: seq<Byte>): string
    requires address + |data| <= WORD_LIMIT
    decreases |data|
  {
    if data == [] then ""
    else if |data| <= BYTES_PER_RECORD then Record(address, data) + "\n"
    else Record(address, data[..16]) + "\n" + Records(address + 16, data[16..])
  }

  /** All that is written for a piece of memory. */
  function Output(address: nat, data: seq<Byte>): string
    requires address + |data| <= WORD_LIMIT
  {
    START_LINE + Records(address, data) + END_LINE
  }

  /** What is sent of `s` if the user interrupts after a number of lines. */
  function Cut(s: string, lines: nat): string
    decreases |s|
  {
    if lines == 0 || s == "" then ""
    else [s[0]] + Cut(s[1..], if s[0] == '\n' then lines - 1 else lines)
  }

  function LineEnds(s: string): nat {
    if s == "" then 0 else (if s[0] == '\n' then 1 else 0) + LineEnds(s[1..])
  }

  lemma {:induction false} CutLine(line: string, rest: string, lines: nat)
    requires '\n' !in line
    ensures Cut(line + "\n" + rest, lines + 1) == line + "\n" + Cut(rest, lines)
    ensures LineEnds(line + "\n" + rest) == 1 + LineEnds(rest)
    decreases |line|
  {
    var s := line + "\n" + rest;
    if line == "" {
      assert s[1..] == rest;
    } else {
      assert s[1..] == line[1..] + "\n" + rest;
      CutLine(line[1..], rest, lines);
    }
  }

  // ---------------------------------------------------------------- decoding a record

  function Hex1Bin(c: char): (v: int)
    ensures -1 <= v < 16
  {
    if '0' <= c <= '9' then c as int - '0' as int
    else if 'a' <= c <= 'f' then c as int + 10 - 'a' as int
    else if 'A' <= c <= 'F' then c as int + 10 - 'A' as int
    else -1
  }

  /** The byte in the two characters at `i`; the end of the string is no digit. */
  function Hex2Bin(s: string, i: nat): (v: int)
    ensures -1 <= v < 256 && (v >= 0 ==> i + 2 <= |s|)
  {
    if i >= |s| || Hex1Bin(s[i]) < 0 then -1
    else if i + 1 >= |s| || Hex1Bin(s[i + 1]) < 0 then -1
    else Hex1Bin(s[i]) * 16 + Hex1Bin(s[i + 1])
  }

  datatype Kind = Start | Data2 | Data3 | Data4 | Count | End4 | End3 | End2

  /** A decoded line; `count` is the number of data bytes, which is negative if the length byte leaves no room for the
      address and the checksum. */
  datatype Decoded = Empty | Error(code: int) | Decoded(kind: Kind, address: nat, count: int, data: seq<Byte>)

  const E_BADTYPE := -1
  const E_NOSREC := -2
  const E_BADCHKS := -3

  function KindOf(c: char): Option<Kind> {
    if c == '0' then Some(Start) else if c == '1' then Some(Data2) else if c == '2' then Some(Data3)
    else if c == '3' then Some(Data4) else if c == '5' then Some(Count) else if c == '7' then Some(End4)
    else if c == '8' then Some(End3) else if c == '9' then Some(End2) else None
  }

  /** How many bytes the address of a record has. */
  function AddressLength(k: Kind): (n: nat)
    ensures 2 <= n <= 4
  {
    match k
    case Data4 => 4
    case End4 => 4
    case Data3 => 3
    case End3 => 3
    case _ => 2
  }

  /** How many data bytes the length byte of a record announces. */
  function DataLength(k: Kind, length: nat): int {
    if k == Count then 0 else length - AddressLength(k) - 1
  }

  function NotNegative(n: int): nat {
    if n < 0 then 0 else n
  }

  /** The `n` bytes in the characters from `i` on, if they are all hexadecimal. */
  function BytesAt(s: string, i: nat, n: nat): (r: Option<seq<Byte>>)
    ensures r.Some? ==> |r.value| == n
    decreases n
  {
    if n == 0 then Some([])
    else if Hex2Bin(s, i) < 0 then None
    else
      match BytesAt(s, i + 2, n - 1)
      case None => None
      case Some(rest) => Some([Hex2Bin(s, i)] + rest)
  }

  function Number(bytes: seq<Byte>): nat {
    if bytes == [] then 0 else Number(bytes[..|bytes| - 1]) * 256 + bytes[|bytes| - 1]
  }

  /** The place behind the first 'S', or the end of the string. */
  function AfterS(s: string): (i: nat)
    ensures i <= |s|
  {
    if s == "" then 0 else if s[0] == 'S' then 1 else 1 + AfterS(s[1..])
  }

  /** A whole line is decoded from behind its first 'S'. */
  function Decode(s: string): Decoded {
    var i := AfterS(s);
    if i == |s| then Empty else DecodeAt(s, i)
  }

  function DecodeAt(s: string, i: nat): Decoded
    requires i < |s|
  {
    var length := Hex2Bin(s, i + 1);
    if length < 0 then Error(E_NOSREC)
    else
      match KindOf(s[i])
      case None => Error(E_BADTYPE)
      case Some(k) =>
        match BytesAt(s, i + 3, AddressLength(k))
        case None => Error(E_NOSREC)
        case Some(address) =>
          var at := i + 3 + 2 * AddressLength(k);
          var count := DataLength(k, length);
          match BytesAt(s, at, NotNegative(count))
          case None => Error(E_NOSREC)
          case Some(data) =>
            var check := Hex2Bin(s, at + 2 * NotNegative(count));
            if check < 0 then Error(E_NOSREC)
            else if check != CheckByte(length + Sum(address) + Sum(data)) then Error(E_BADCHKS)
            else Decoded(k, Number(address), count, data)
  }

  // ---------------------------------------------------------------- decoding undoes encoding

  lemma DigitBack(v: nat)
    requires v < 16
    ensures Hex1Bin(HexDigit(v)) == v
  {
    if v < 10 {
      assert HexDigit(v) as int == '0' as int + v;
    } else {
      assert HexDigit(v) as int == 'A' as int + v - 10;
    }
  }

  lemma ByteBack(s: string, i: nat, b: Byte)
    requires i + 2 <= |s| && s[i..i + 2] == Hex2(b)
    ensures Hex2Bin(s, i) == b
  {
    DigitBack(b / 16);
    DigitBack(b % 16);
    assert s[i] == s[i..i + 2][0] && s[i + 1] == s[i..i + 2][1];
  }

  lemma {:induction false} BytesBack(s: string, i: nat, bytes: seq<Byte>)
    requires i + 2 * |bytes| <= |s| && s[i..i + 2 * |bytes|] == HexAll(bytes)
    ensures BytesAt(s, i, |bytes|) == Some(bytes)
    decreases |bytes|
  {
    if bytes != [] {
      var h := s[i..i + 2 * |bytes|];
      assert h[..2] == Hex2(bytes[0]) && h[2..] == HexAll(bytes[1..]);
      assert s[i..i + 2] == h[..2] && s[i + 2..i + 2 + 2 * |bytes[1..]|] == h[2..];
      ByteBack(s, i, bytes[0]);
      BytesBack(s, i + 2, bytes[1..]);
      assert BytesAt(s, i + 2, |bytes| - 1) == Some(bytes[1..]) && [bytes[0]] + bytes[1..] == bytes;
    }
  }

  lemma Number4(a: Byte, b: Byte, c: Byte, d: Byte)
    ensures Number([a, b, c, d]) == a * 0x100_0000 + b * 0x1_0000 + c * 0x100 + d
  {
    assert [a, b, c, d][..3] == [a, b, c] && [a, b, c][..2] == [a, b] && [a, b][..1] == [a] && [a][..0] == [];
    assert Number([a]) == a && Number([a, b]) == a * 0x100 + b && Number([a, b, c]) == a * 0x1_0000 + b * 0x100 + c;
  }

  lemma AddressBack(a: nat)
    requires a < WORD_LIMIT
    ensures Number(AddressBytes(a)) == a
  {
    hide Number;
    var x, y, z := a / 256, a / 256 / 256, a / 256 / 256 / 256;
    Number4(z, y % 256, x % 256, a % 256);
    assert y == z * 256 + y % 256 && x == y * 256 + x % 256 && a == x * 256 + a % 256;
  }

  lemma BodyHex(address: nat, data: seq<Byte>)
    requires address < WORD_LIMIT && |data| <= 250
    ensures HexAll(Body(address, data)) == Hex2(5 + |data|) + HexAll(AddressBytes(address)) + HexAll(data)
    ensures Sum(Body(address, data)) == 5 + |data| + Sum(AddressBytes(address)) + Sum(data)
  {
    hide Hex2, AddressBytes;
    var length: Byte, ab := 5 + |data|, AddressBytes(address);
    HexJoin([length] + ab, data);
    HexJoin([length], ab);
    SumJoin([length] + ab, data);
    SumJoin([length], ab);
    assert HexAll([length]) == Hex2(length) + HexAll([]) == Hex2(length);
  }

  /** Where the parts of a record are. */
  lemma RecordParts(address: nat, data: seq<Byte>)
    requires address < WORD_LIMIT && |data| <= 250
    ensures var s, n := Record(address, data), 2 * |data|;
            && |s| == 14 + n && s[0] == 'S' && s[1] == '3'
            && s[2..4] == Hex2(5 + |data|) && s[4..12] == HexAll(AddressBytes(address)) && s[12..12 + n] == HexAll(data)
            && s[12 + n..14 + n] == Hex2(CheckByte(5 + |data| + Sum(AddressBytes(address)) + Sum(data)))
  {
    hide Hex2, HexAll, AddressBytes, Sum;
    BodyHex(address, data);
  }

  /** What was written as a record is read as its address and its data. */
  lemma RecordBack(address: nat, data: seq<Byte>)
    requires address < WORD_LIMIT && |data| <= 250
    ensures Decode(Record(address, data)) == Decoded(Data4, address, |data|, data)
  {
    hide Hex2, HexAll, AddressBytes, Sum, Record, Hex2Bin, BytesAt, Number;
    var s := Record(address, data);
    RecordParts(address, data);
    ByteBack(s, 2, 5 + |data|);
    BytesBack(s, 4, AddressBytes(address));
    BytesBack(s, 12, data);
    ByteBack(s, 12 + 2 * |data|, CheckByte(5 + |data| + Sum(AddressBytes(address)) + Sum(data)));
    AddressBack(address);
    assert AfterS(s) == 1;
  }

  // ---------------------------------------------------------------- lines and sessions

  const LINE_ROOM: nat := 516

  datatype LineRead = Dry | Abort(rest: string) | Line(text: string, rest: string)

  /** The next line, cut off when there is no more room; a null character or an interrupt aborts. */
  function ReadLine(s: string, room: nat): (r: LineRead)
    ensures r.Line? && room > 0 ==> |r.rest| < |s|
  {
    if room == 0 then Line("", s)
    else if s == "" then Dry
    else if s[0] == '\r' || s[0] == '\n' then Line("", s[1..])
    else if s[0] == NUL || s[0] == '\U{0003}' then Abort(s[1..])
    else Behind([s[0]], ReadLine(s[1..], room - 1))
  }

  /** What is read when `text` has been read already. */
  function Behind(text: string, r: LineRead): LineRead {
    match r
    case Dry => Dry
    case Abort(rest) => Abort(rest)
    case Line(more, rest) => Line(text + more, rest)
  }

  lemma BehindNothing(r: LineRead)
    ensures Behind("", r) == r
  {
  }

  lemma BehindJoin(a: string, b: string, r: LineRead)
    ensures Behind(a, Behind(b, r)) == Behind(a + b, r)
  {
    if r.Line? {
      assert a + (b + r.text) == a + b + r.text;
    }
  }

  lemma ReadNext(s: string, room: nat)
    ensures room == 0 ==> ReadLine(s, room) == Line("", s)
    ensures room > 0 && s == "" ==> ReadLine(s, room) == Dry
    ensures room > 0 && s != "" ==>
              ReadLine(s, room) == (if s[0] == '\r' || s[0] == '\n' then Line("", s[1..])
                                    else if s[0] == NUL || s[0] == '\U{0003}' then Abort(s[1..])
                                    else Behind([s[0]], ReadLine(s[1..], room - 1)))
  {
  }

  type Memory = map<nat, Byte>

  /** Memory with the data from `at` on; behind the last address comes the first. */
  function Written(mem: Memory, at: nat, data: seq<Byte>): Memory
    decreases |data|
  {
    if data == [] then mem else Written(mem[at % WORD_LIMIT := data[0]], at + 1, data[1..])
  }

  /** Memory holds the data where it was written, and what it held before everywhere else. */
  lemma {:induction false} WrittenAt(mem: Memory, at: nat, data: seq<Byte>, x: nat)
    requires |data| <= WORD_LIMIT
    ensures var i := (x - at) % WORD_LIMIT;
            if x < WORD_LIMIT && i < |data| then x in Written(mem, at, data) && Written(mem, at, data)[x] == data[i]
            else (x in Written(mem, at, data) <==> x in mem) && (x in mem ==> Written(mem, at, data)[x] == mem[x])
    decreases |data|
  {
    if data != [] {
      WrittenAt(mem[at % WORD_LIMIT := data[0]], at + 1, data[1..], x);
      StepBack(x, at);
    }
  }

  lemma StepBack(x: nat, at: nat)
    ensures var i := (x - at) % WORD_LIMIT;
            && (x - (at + 1)) % WORD_LIMIT == (if i > 0 then i - 1 else WORD_LIMIT - 1)
            && (x < WORD_LIMIT ==> (i == 0 <==> x == at % WORD_LIMIT))
  {
  }

  lemma {:induction false} WrittenWraps(mem: Memory, at: nat, data: seq<Byte>)
    ensures Written(mem, at % WORD_LIMIT, data) == Written(mem, at, data)
    decreases |data|
  {
    if data != [] {
      var next := mem[at % WORD_LIMIT := data[0]];
      WrittenWraps(next, at + 1, data[1..]);
      WrittenWraps(next, at % WORD_LIMIT + 1, data[1..]);
      assert (at % WORD_LIMIT + 1) % WORD_LIMIT == (at + 1) % WORD_LIMIT;
    }
  }

  predicate IsData(k: Kind) {
    k == Data2 || k == Data3 || k == Data4
  }

  predicate IsEnd(k: Kind) {
    k == End2 || k == End3 || k == End4
  }

  /** What loading leaves in memory and returns; an invalid record or an interrupt returns all ones. A data record
      with a negative number of bytes asks for a copy that nothing can be said about. */
  datatype Loaded = Loaded(mem: Memory, result: nat) | Undefined

  function Load(s: string, mem: Memory, offset: nat): Option<Loaded>
    decreases |s|
  {
    match ReadLine(s, LINE_ROOM)
    case Dry => None
    case Abort(_) => Some(Loaded(mem, WORD_LIMIT - 1))
    case Line(text, rest) =>
      match Decode(text)
      case Error(_) => Some(Loaded(mem, WORD_LIMIT - 1))
      case Empty => Load(rest, mem, offset)
      case Decoded(k, address, count, data) =>
        if IsEnd(k) then Some(Loaded(mem, address))
        else if IsData(k) && count < 0 then Some(Undefined)
        else if IsData(k) then Load(rest, Written(mem, (address + offset) % WORD_LIMIT, data), offset)
        else Load(rest, mem, offset)
  }

  // ---------------------------------------------------------------- the round trip

  predicate Plain(s: string) {
    forall c :: c in s ==> c >= '0'
  }

  lemma {:induction false} ReadPlainLine(text: string, rest: string, room: nat)
    requires Plain(text) && |text| < room
    ensures ReadLine(text + "\n" + rest, room) == Line(text, rest)
  {
    var s := text + "\n" + rest;
    if text == "" {
      assert s[1..] == rest;
    } else {
      assert forall c :: c in text[1..] ==> c in text;
      assert text[0] in text;
      ReadPlainLine(text[1..], rest, room - 1);
      assert s[1..] == text[1..] + "\n" + rest && text == [text[0]] + text[1..];
    }
  }

  lemma {:induction false} HexPlain(bytes: seq<Byte>)
    ensures Plain(HexAll(bytes))
  {
    if bytes != [] {
      DigitPlain(bytes[0] / 16);
      DigitPlain(bytes[0] % 16);
      HexPlain(bytes[1..]);
    }
  }

  lemma DigitPlain(v: nat)
    requires v < 16
    ensures HexDigit(v) >= '0'
  {
  }

  lemma RecordPlain(address: nat, data: seq<Byte>)
    requires address < WORD_LIMIT && |data| <= BYTES_PER_RECORD
    ensures Plain(Record(address, data)) && |Record(address, data)| < LINE_ROOM
  {
    HexPlain(Body(address, data));
    HexPlain([CheckByte(Sum(Body(address, data)))]);
    assert HexAll([CheckByte(Sum(Body(address, data)))]) == Hex2(CheckByte(Sum(Body(address, data)))) + HexAll([]);
    RecordFits(address, data);
  }

  lemma {:induction false} WrittenTwice(mem: Memory, at: nat, a: seq<Byte>, b: seq<Byte>)
    ensures Written(Written(mem, at, a), at + |a|, b) == Written(mem, at, a + b)
    decreases |a|
  {
    if a == [] {
      assert a + b == b;
    } else {
      WrittenTwice(mem[at % WORD_LIMIT := a[0]], at + 1, a[1..], b);
      assert (a + b)[1..] == a[1..] + b;
    }
  }

  lemma RecordLoads(address: nat, data: seq<Byte>, rest: string, mem: Memory, offset: nat)
    requires address < WORD_LIMIT && |data| <= BYTES_PER_RECORD
    ensures Load(Record(address, data) + "\n" + rest, mem, offset) ==
            Load(rest, Written(mem, address + offset, data), offset)
  {
    hide Record, ReadLine, Decode, Written;
    WrittenWraps(mem, address + offset, data);
    RecordPlain(address, data);
    ReadPlainLine(Record(address, data), rest, LINE_ROOM);
    RecordBack(address, data);
  }

  lemma {:induction false} RecordsLoad(address: nat, data: seq<Byte>, rest: string, mem: Memory, offset: nat)
    requires address + |data| <= WORD_LIMIT
    ensures Load(Records(address, data) + rest, mem, offset) == Load(rest, Written(mem, address + offset, data), offset)
    decreases |data|
  {
    hide Record, ReadLine, Decode, Load, Written;
    if data == [] {
      assert "" + rest == rest;
      WrittenNothing(mem, address + offset);
    } else if |data| <= BYTES_PER_RECORD {
      RecordLoads(address, data, rest, mem, offset);
    } else {
      var more := Records(address + 16, data[16..]) + rest;
      assert Records(address, data) + rest == Record(address, data[..16]) + "\n" + more;
      RecordLoads(address, data[..16], more, mem, offset);
      RecordsLoad(address + 16, data[16..], rest, Written(mem, address + offset, data[..16]), offset);
      WrittenTwice(mem, address + offset, data[..16], data[16..]);
      assert data[..16] + data[16..] == data;
    }
  }

  lemma WrittenNothing(mem: Memory, at: nat)
    ensures Written(mem, at, []) == mem
  {
  }

  function Zeros(n: nat): (z: seq<Byte>)
    ensures |z| == n
  {
    if n == 0 then [] else [0] + Zeros(n - 1)
  }

  lemma {:induction false} ZerosAt(s: string, i: nat, n: nat)
    requires i + 2 * n <= |s| && forall k :: i <= k < i + 2 * n ==> s[k] == '0'
    ensures BytesAt(s, i, n) == Some(Zeros(n))
    decreases n
  {
    if n > 0 {
      assert Hex2Bin(s, i) == 0;
      ZerosAt(s, i + 2, n - 1);
    }
  }

  lemma {:induction false} ZerosEnd(n: nat)
    requires n > 0
    ensures Zeros(n)[..n - 1] == Zeros(n - 1) && Zeros(n)[n - 1] == 0
  {
    if n > 1 {
      ZerosEnd(n - 1);
      assert Zeros(n)[..n - 1] == [0] + Zeros(n - 1)[..n - 2];
    }
  }

  lemma {:induction false} ZerosNumber(n: nat)
    ensures Number(Zeros(n)) == 0 && Sum(Zeros(n)) == 0
  {
    if n > 0 {
      ZerosEnd(n);
      ZerosNumber(n - 1);
    }
  }

  lemma StartDecodes()
    ensures Decode("S0030000FC") == Decoded(Start, 0, 0, [])
  {
    hide Number, Sum, Zeros, BytesAt;
    var s := "S0030000FC";
    assert Hex2Bin(s, 2) == 3 && Hex2Bin(s, 8) == 0xfc;
    ZerosAt(s, 4, 2);
    ZerosNumber(2);
    ZerosAt(s, 8, 0);
    ZerosNothing();
    assert AfterS(s) == 1;
  }

  lemma ZerosNothing()
    ensures Zeros(0) == [] && Sum([]) == 0
  {
  }

  lemma EndDecodes()
    ensures Decode("S70500000000FA") == Decoded(End4, 0, 0, [])
  {
    hide Number, Sum, Zeros, BytesAt;
    var s := "S70500000000FA";
    assert Hex2Bin(s, 2) == 5 && Hex2Bin(s, 12) == 0xfa;
    ZerosAt(s, 4, 4);
    ZerosNumber(4);
    ZerosAt(s, 12, 0);
    ZerosNothing();
    assert AfterS(s) == 1;
  }

  /** The round trip: loading what was written for a piece of memory puts exactly those bytes where they were plus the
      offset, in addresses of 32 bits, leaves everything else alone and returns 0. */
  lemma OutputLoads(address: nat, data: seq<Byte>, rest: string, mem: Memory, offset: nat)
    requires address + |data| <= WORD_LIMIT
    ensures Load(Output(address, data) + rest, mem, offset) == Some(Loaded(Written(mem, address + offset, data), 0))
  {
    hide Decode, Records, Written;
    var tail := END_LINE + rest;
    assert Output(address, data) + rest == "S0030000FC" + "\n" + (Records(address, data) + tail);
    ReadPlainLine("S0030000FC", Records(address, data) + tail, LINE_ROOM);
    StartDecodes();
    RecordsLoad(address, data, tail, mem, offset);
    assert tail == "S70500000000FA" + "\n" + rest;
    ReadPlainLine("S70500000000FA", rest, LINE_ROOM);
    EndDecodes();
  }
}
