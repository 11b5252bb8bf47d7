/** S-records of every kind: what decoding and loading make of each, and of a wrong checksum
    (u-boot-v1.2/common/s_record.c, u-boot-v1.2/common/cmd_load.c). */
module SRecordKinds {
  import opened Basics
  import opened SRecord

  // ---------------------------------------------------------------- records of every kind

  /** How many bytes the address of a record has whose type is the character `t`. */
  function Width(t: char): nat {
    if t == '3' || t == '7' then 4 else if t == '2' || t == '8' then 3 else 2
  }

  function Power(n: nat): nat {
    if n == 0 then 1 else 256 * Power(n - 1)
  }

  /** The lowest `n` bytes of a number, the highest of them first. */
  function BytesOf(a: nat, n: nat): (s: seq<Byte>)
    ensures |s| == n
  {
    if n == 0 then [] else BytesOf(a / 256, n - 1) + [a % 256]
  }

  lemma {:induction false} NumberBack(a: nat, n: nat)
    requires a < Power(n)
    ensures Number(BytesOf(a, n)) == a
  {
    if n > 0 {
      NumberBack(a / 256, n - 1);
      assert BytesOf(a, n)[..n - 1] == BytesOf(a / 256, n - 1);
    }
  }

  /** The bytes in front of the checksum: length, address, data. */
  function Content(t: char, address: nat, data: seq<Byte>): seq<Byte>
    requires |data| <= 250
  {
    [Width(t) + |data| + 1] + (BytesOf(address, Width(t)) + data)
  }

  /** A record with any type and any checksum. */
  function Built(t: char, address: nat, data: seq<Byte>, check: Byte): string
    requires |data| <= 250
  {
    ['S', t] + HexAll(Content(t, address, data)) + Hex2(check)
  }

  lemma ContentHex(t: char, address: nat, data: seq<Byte>)
    requires |data| <= 250
    ensures var length: Byte, ab := Width(t) + |data| + 1, BytesOf(address, Width(t));
            && HexAll(Content(t, address, data)) == Hex2(length) + (HexAll(ab) + HexAll(data))
            && Sum(Content(t, address, data)) == length + Sum(ab) + Sum(data)
  {
    hide Hex2;
    var length: Byte, ab := Width(t) + |data| + 1, BytesOf(address, Width(t));
    HexJoin([length], ab + data);
    HexJoin(ab, data);
    SumJoin([length], ab + data);
    SumJoin(ab, data);
    SumOne(length);
    assert HexAll([length]) == Hex2(length) + HexAll([]) == Hex2(length);
  }

  lemma BuiltParts(t: char, address: nat, data: seq<Byte>, check: Byte)
    requires |data| <= 250
    ensures var s, w, n := Built(t, address, data, check), 2 * Width(t), 2 * |data|;
            && |s| == 6 + w + n && s[0] == 'S' && s[1] == t
            && s[2..4] == Hex2(Width(t) + |data| + 1) && s[4..4 + w] == HexAll(BytesOf(address, Width(t)))
            && s[4 + w..4 + w + n] == HexAll(data) && s[4 + w + n..6 + w + n] == Hex2(check)
  {
    hide Hex2, HexAll, Sum, BytesOf, Content;
    ContentHex(t, address, data);
    var h := Hex2(Width(t) + |data| + 1);
    var a, d, c := HexAll(BytesOf(address, Width(t))), HexAll(data), Hex2(check);
    assert Built(t, address, data, check) == ['S', t] + h + a + d + c;
  }

  /** A record with one of the known types is decoded to its address and its data if its checksum makes its bytes add
      up to 0xff, and is refused for its checksum otherwise. A record that counts records has no data. */
  lemma BuiltDecodes(t: char, address: nat, data: seq<Byte>, check: Byte)
    requires t in "01235789" && |data| <= 250 && address < Power(Width(t)) && (t == '5' ==> data == [])
    ensures Decode(Built(t, address, data, check)) ==
            if (Sum(Content(t, address, data)) + check) % 256 == 255
            then Decoded(KindOf(t).value, address, if t == '5' then 0 else |data|, data)
            else Error(-3)
  {
    hide Hex2, HexAll, Sum, Built, Hex2Bin, BytesAt, Number, BytesOf, Content, Power;
    var s, w := Built(t, address, data, check), Width(t);
    BuiltParts(t, address, data, check);
    ContentHex(t, address, data);
    ByteBack(s, 2, w + |data| + 1);
    BytesBack(s, 4, BytesOf(address, w));
    BytesBack(s, 4 + 2 * w, data);
    ByteBack(s, 4 + 2 * w + 2 * |data|, check);
    NumberBack(address, w);
    ChecksUp(w + |data| + 1 + Sum(BytesOf(address, w)) + Sum(data), check);
    assert AfterS(s) == 1 && AddressLength(KindOf(t).value) == w;
  }

  lemma ChecksUp(sum: nat, check: Byte)
    ensures check == CheckByte(sum) <==> (sum + check) % 256 == 255
  {
  }

  /** A record of any other type is refused for its type. */
  lemma UnknownType(t: char, address: nat, data: seq<Byte>, check: Byte)
    requires t !in "01235789" && |data| <= 250
    ensures Decode(Built(t, address, data, check)) == Error(-1)
  {
    hide Hex2, HexAll, Built, Hex2Bin, BytesOf;
    var s := Built(t, address, data, check);
    BuiltParts(t, address, data, check);
    ByteBack(s, 2, Width(t) + |data| + 1);
    assert AfterS(s) == 1 && KindOf(t) == None;
  }

  lemma HexMore(b: Byte, rest: seq<Byte>)
    ensures HexAll([b] + rest) == [HexDigit(b / 16), HexDigit(b % 16)] + HexAll(rest)
  {
    assert ([b] + rest)[1..] == rest;
  }

  /** The hexadecimal digits of a few bytes. */
  lemma Hex3(a: Byte, b: Byte, c: Byte)
    ensures HexAll([a, b, c]) == [HexDigit(a / 16), HexDigit(a % 16)] + [HexDigit(b / 16), HexDigit(b % 16)] +
                                 [HexDigit(c / 16), HexDigit(c % 16)]
  {
    hide HexAll;
    HexMore(c, []);
    HexMore(b, [c]);
    HexMore(a, [b, c]);
    assert [c] + [] == [c] && [b] + [c] == [b, c] && [a] + [b, c] == [a, b, c] && HexAll([]) == "" by { NoHex(); }
  }

  lemma NoHex()
    ensures HexAll([]) == ""
  {
  }

  lemma Bytes1234()
    ensures BytesOf(0x1234, 2) == [0x12, 0x34]
  {
    assert BytesOf(0x12, 1) == [0x12];
  }

  /** A data record with a short address, an end record, and the data record that is used for saving. */
  lemma ShortRecordExample()
    ensures Built('1', 0x1234, [0xaa], 0x0b) == "S1041234AA0B"
  {
    hide HexAll, BytesOf;
    Bytes1234();
    assert Content('1', 0x1234, [0xaa]) == [0x04] + [0x12, 0x34, 0xaa];
    Hex3(0x12, 0x34, 0xaa);
    HexMore(0x04, [0x12, 0x34, 0xaa]);
  }

  lemma EndRecordExample()
    ensures Built('9', 0x1234, [], 0xb6) == "S9031234B6"
  {
    hide HexAll, BytesOf;
    Bytes1234();
    assert Content('9', 0x1234, []) == [0x03, 0x12, 0x34];
    Hex3(0x03, 0x12, 0x34);
  }

  lemma SavedRecordExample()
    ensures Record(0x100000, [0xaa]) == "S30600100000AA3F"
  {
    hide HexAll, Sum;
    var body: seq<Byte> := [0x06, 0x00, 0x10] + [0x00, 0x00, 0xaa];
    assert Body(0x100000, [0xaa]) == body;
    Hex3(0x06, 0x00, 0x10);
    Hex3(0x00, 0x00, 0xaa);
    HexJoin([0x06, 0x00, 0x10], [0x00, 0x00, 0xaa]);
    SumJoin([0x06, 0x00, 0x10], [0x00, 0x00, 0xaa]);
    SumThree(0x06, 0x00, 0x10);
    SumThree(0x00, 0x00, 0xaa);
    assert Sum(body) == 0xc0 && CheckByte(0xc0) == 0x3f;
  }

  lemma SumThree(a: Byte, b: Byte, c: Byte)
    ensures Sum([a, b, c]) == a + b + c
  {
    assert [a, b, c] == [a] + ([b] + [c]);
    SumJoin([a], [b] + [c]);
    SumJoin([b], [c]);
    SumOne(a);
    SumOne(b);
    SumOne(c);
  }

  /** A line that is too long is cut off behind 516 characters; what follows is read as the next line. */
  lemma {:induction false} LongLine(s: string, room: nat)
    requires |s| >= room && forall i :: 0 <= i < room ==> s[i] >= ' '
    ensures ReadLine(s, room) == Line(s[..room], s[room..])
    ensures room == 516 ==> ReadLine(s, LINE_ROOM) == Line(s[..516], s[516..])
    decreases room
  {
    if room > 0 {
      LongLine(s[1..], room - 1);
      assert s[1..][..room - 1] == s[1..room] && [s[0]] + s[1..room] == s[..room];
      assert s[1..][room - 1..] == s[room..];
    }
  }

  // ---------------------------------------------------------------- loading them

  /** The checksum that makes a record valid. */
  function Right(t: char, address: nat, data: seq<Byte>): Byte
    requires |data| <= 250
  {
    255 - Sum(Content(t, address, data)) % 256
  }

  lemma BuiltReads(t: char, address: nat, data: seq<Byte>, check: Byte, rest: string)
    requires t >= '0' && |data| <= 250
    ensures ReadLine(Built(t, address, data, check) + "\n" + rest, LINE_ROOM) ==
            Line(Built(t, address, data, check), rest)
  {
    hide ReadLine, HexAll;
    HexPlain(Content(t, address, data));
    HexPlain([check]);
    assert HexAll([check]) == Hex2(check) by {
      HexOne(check);
    }
    BuiltParts(t, address, data, check);
    ReadPlainLine(Built(t, address, data, check), rest, LINE_ROOM);
  }

  lemma HexOne(b: Byte)
    ensures HexAll([b]) == Hex2(b)
  {
    assert HexAll([b]) == Hex2(b) + HexAll([]);
  }

  /** One line of a download. Data of each kind is put at its address plus the offset, in 32 bits; the end record of
      each kind ends loading, and its address is the result, whatever it is; start and count records do nothing; a
      wrong checksum or an unknown type ends loading with all ones. */
  lemma LineLoads(t: char, address: nat, data: seq<Byte>, check: Byte, rest: string, mem: Memory, offset: nat)
    requires t >= '0' && |data| <= 250 && address < Power(Width(t)) && (t == '5' ==> data == [])
    ensures Load(Built(t, address, data, check) + "\n" + rest, mem, offset) ==
            if t !in "01235789" || check != Right(t, address, data) then Some(Loaded(mem, 0xffff_ffff))
            else if t in "123" then Load(rest, Written(mem, address + offset, data), offset)
            else if t in "789" then Some(Loaded(mem, address))
            else Load(rest, mem, offset)
  {
    hide ReadLine, Decode, Written, Built, Sum, Content, Power;
    BuiltReads(t, address, data, check, rest);
    WrittenWraps(mem, address + offset, data);
    if t in "01235789" {
      BuiltDecodes(t, address, data, check);
      ChecksUp(Sum(Content(t, address, data)), check);
    } else {
      UnknownType(t, address, data, check);
    }
  }

  /** An interrupt, or a null character, in the place of a record ends loading with all ones. */
  lemma InterruptLoads(c: char, rest: string, mem: Memory, offset: nat)
    requires c == '\0' || c == '\U{0003}'
    ensures Load([c] + rest, mem, offset) == Some(Loaded(mem, 0xffff_ffff))
  {
    ReadNext([c] + rest, LINE_ROOM);
    assert ReadLine([c] + rest, LINE_ROOM).Abort?;
  }

  /** What memory holds, at each address of 32 bits, after loading at any offset what was saved: the byte that was
      saved `i` bytes behind the first one, if the address is `i` behind the first one plus the offset, and what it
      held before otherwise. */
  lemma OutputLoadsAt(address: nat, data: seq<Byte>, rest: string, mem: Memory, offset: nat, x: nat)
    requires address + |data| <= WORD_LIMIT && x < WORD_LIMIT
    ensures var loaded, i := Load(Output(address, data) + rest, mem, offset), (x - address - offset) % 0x1_0000_0000;
            && (address + offset + i) % 0x1_0000_0000 == x
            && loaded.Some? && loaded.value.Loaded? && loaded.value.result == 0
            && var after := loaded.value.mem;
            if i < |data| then x in after && after[x] == data[i]
            else (x in after <==> x in mem) && (x in mem ==> after[x] == mem[x])
  {
    hide Load, Written, Output;
    OutputLoads(address, data, rest, mem, offset);
    WrittenAt(mem, address + offset, data, x);
    PlaceBack(x, address + offset);
  }

  lemma PlaceBack(x: nat, at: nat)
    requires x < WORD_LIMIT
    ensures (at + (x - at) % WORD_LIMIT) % WORD_LIMIT == x
  {
  }
}
