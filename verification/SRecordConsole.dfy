/** The console side of S-records: uploading memory and loading it (u-boot-v1.2/common/cmd_load.c,
    u-boot-v1.2/common/s_record.c). */
module SRecordConsole {
  import opened Basics
  import opened SRecord

  class Console {
    const input: string
    var pos: nat
    var output: string
    var echo: bool
    var quiet: nat                 // how many records can be sent before the user interrupts

    ghost predicate Valid()
      reads this
    {
      pos <= |input|
    }

    constructor (input: string, echo: bool, quiet: nat)
      ensures Valid() && this.input == input && pos == 0 && output == "" && this.echo == echo && this.quiet == quiet
    {
      this.input, pos, output, this.echo, this.quiet := input, 0, "", echo, quiet;
    }

    /** Reads a line into `buf`, which always has room for the terminator; -1 if reading is aborted. */
    method ReadRecord(buf: array<char>, len: nat) returns (n: int)
      requires Valid() && 0 < len <= buf.Length && !ReadLine(input[pos..], len - 1).Dry?
      modifies `pos, `output, buf
      ensures Valid() && n >= -1
      ensures match ReadLine(old(input[pos..]), len - 1)
              case Dry => false
              case Abort(rest) => n == -1 && input[pos..] == rest
              case Line(text, rest) => n == |text| < buf.Length && buf[..n] == text && buf[n] == NUL
                                       && input[pos..] == rest
      ensures !echo ==> output == old(output)
    {
      hide ReadLine;
      var p := 0;
      ghost var start := input[pos..];
      BehindNothing(ReadLine(start, len - 1));
      while p < len - 1
        invariant Valid() && p <= len - 1 && (!echo ==> output == old(output))
        invariant ReadLine(start, len - 1) == Behind(buf[..p], ReadLine(input[pos..], len - 1 - p))
        decreases len - p
      {
        ReadNext(input[pos..], len - 1 - p);
        var c := input[pos];
        assert input[pos..][1..] == input[pos + 1..];
        pos := pos + 1;
        if echo {
          output := output + [c];
        }
        if c == '\r' || c == '\n' {
          buf[p] := NUL;
          assert buf[..p] + "" == buf[..p];
          return p;
        } else if c == NUL || c == '\U{0003}' {
          return -1;
        }
        BehindJoin(buf[..p], [c], ReadLine(input[pos..], len - 2 - p));
        ghost var before := buf[..p];
        buf[p] := c;
        assert buf[..p + 1] == before + [c];
        p := p + 1;
      }
      ReadNext(input[pos..], 0);
      buf[p] := NUL;
      assert buf[..p] + "" == buf[..p];
      return p;
    }

    // ---------------------------------------------------------------- writing

    method Ctrlc() returns (stop: bool)
      modifies `quiet
      ensures stop == (old(quiet) == 0) && quiet == if stop then 0 else old(quiet) - 1
    {
      stop := quiet == 0;
      quiet := if stop then 0 else quiet - 1;
    }

    /** Sends the string in a buffer. */
    method WriteRecord(record: array<char>, ghost s: string) returns (stop: bool)
      requires |s| < record.Length && record[..|s|] == s && record[|s|] == NUL && NUL !in s
      modifies `output, `quiet
      ensures output == old(output) + s
      ensures stop == (old(quiet) == 0) && quiet == if stop then 0 else old(quiet) - 1
    {
      var i := 0;
      while record[i] != NUL
        invariant i <= |s| && output == old(output) + s[..i] && quiet == old(quiet)
        decreases |s| - i
      {
        assert record[i] == record[..|s|][i];
        output := output + [record[i]];
        i := i + 1;
      }
      assert s[..i] == s;
      stop := Ctrlc();
    }

    /** Formats one record and sends it. */
    method DumpRecord(address: nat, reclen: nat, sum: nat, data: array<char>, record: array<char>,
                      ghost bytes: seq<Byte>)
      returns (stop: bool)
      requires address < WORD_LIMIT && reclen == |bytes| <= BYTES_PER_RECORD && sum == Sum(bytes)
      requires data.Length == 2 * BYTES_PER_RECORD + 1 && record.Length == 2 * BYTES_PER_RECORD + 16 && data != record
      requires data[..2 * reclen] == HexAll(bytes)
      modifies `output, `quiet, record
      ensures output == old(output) + Record(address, bytes) + "\n"
      ensures stop == (old(quiet) == 0) && quiet == if stop then 0 else old(quiet) - 1
    {
      hide HexAll, Hex2, Sum, AddressBytes;
      var length := 4 + reclen + 1;
      var checksum := sum + SumOfBytes(length, 2) + SumOfBytes(address, 4);
      checksum := 255 - checksum % 256;
      LengthSum(length);
      AddressSum(address);
      BodyHex(address, bytes);
      RecordFits(address, bytes);
      RecordPlain(address, bytes);
      var s := "S3" + Hex2(length) + HexAll(AddressBytes(address)) + data[..2 * reclen] + Hex2(checksum);
      assert s == Record(address, bytes);
      Format(record, s + "\n");
      stop := WriteRecord(record, s + "\n");
    }

    /** Fetches one byte of memory, in hexadecimal, and adds it to the sum. */
    method TakeByte(mem: Memory, at: nat, reclen: nat, sum: nat, data: array<char>) returns (checksum: nat)
      requires Present(mem, at, reclen + 1) && reclen < BYTES_PER_RECORD && data.Length == 2 * BYTES_PER_RECORD + 1
      requires data[..2 * reclen] == HexAll(Bytes(mem, at, reclen)) && sum == Sum(Bytes(mem, at, reclen))
      modifies data
      ensures data[..2 * (reclen + 1)] == HexAll(Bytes(mem, at, reclen + 1))
              && checksum == Sum(Bytes(mem, at, reclen + 1))
    {
      hide HexAll, Sum;
      var c := mem[at + reclen];
      MoreBytes(mem, at, reclen);
      ghost var sofar := data[..2 * reclen];
      checksum := sum + c;
      data[2 * reclen] := HexDigit(c / 16);
      data[2 * reclen + 1] := HexDigit(c % 16);
      data[2 * reclen + 2] := NUL;
      assert data[..2 * (reclen + 1)] == sofar + [HexDigit(c / 16), HexDigit(c % 16)];
    }

    /** Writes `count` bytes of memory from `address` on as records, until the user interrupts. */
    method SaveSerial(address0: nat, count0: nat, mem: Memory) returns (ret: int)
      requires address0 + count0 <= WORD_LIMIT && Present(mem, address0, count0)
      modifies `output, `quiet
      ensures output == old(output) + Cut(Output(address0, Bytes(mem, address0, count0)), old(quiet) + 1)
      ensures ret == if LineEnds(Output(address0, Bytes(mem, address0, count0))) > old(quiet) then -1 else 0
    {
      hide HexAll, Hex2, Record, Records, Sum, Bytes, Cut, LineEnds, Going;
      var data := new char[2 * BYTES_PER_RECORD + 1];
      var record := new char[2 * BYTES_PER_RECORD + 16];
      var address: nat, count: nat, reclen: nat, checksum: nat := address0, count0, 0, 0;
      ghost var all := Output(address0, Bytes(mem, address0, count0));
      ghost var goal, over := output + Cut(all, quiet + 1), LineEnds(all) - quiet;
      StartLeft(address0, Bytes(mem, address0, count0), output, quiet);
      GoOn("S0030000FC", Records(address0, Bytes(mem, address0, count0)) + END_LINE, output, quiet, goal, over);
      output := output + START_LINE;
      var stop := Ctrlc();
      if stop {
        return -1;
      }
      NoBytes(mem, address);
      var again := true;
      while again
        invariant reclen < BYTES_PER_RECORD && address + reclen + count == address0 + count0
        invariant again ==> (address < WORD_LIMIT || count == 0) && Present(mem, address, reclen + count)
        invariant again || (reclen == 0 && count == 0)
        invariant data[..2 * reclen] == HexAll(Bytes(mem, address, reclen))
                  && checksum == Sum(Bytes(mem, address, reclen))
        invariant Going(output, Records(address, Bytes(mem, address, reclen + count)) + END_LINE, quiet, goal, over)
        invariant reclen > 0 ==> count > 0
        decreases again, count
      {
        if count > 0 {
          checksum := TakeByte(mem, address, reclen, checksum, data);
          reclen := reclen + 1;
          count := count - 1;
        }
        if reclen == BYTES_PER_RECORD || count == 0 {
          if reclen > 0 {
            GoRecord(mem, address, reclen, count, output, quiet, goal, over);
            stop := DumpRecord(address, reclen, checksum, data, record, Bytes(mem, address, reclen));
            if stop {
              return -1;
            }
          }
          address := address + reclen;
          checksum := 0;
          reclen := 0;
          NoBytes(mem, address);
        }
        again := count > 0;
      }
      NoBytes(mem, address);
      EndLeft();
      GoOn("S70500000000FA", "", output, quiet, goal, over);
      output := output + END_LINE;
      stop := Ctrlc();
      if stop {
        return -1;
      }
      GoneAll(output, quiet, goal, over);
      return 0;
    }

    // ---------------------------------------------------------------- decoding and loading

    /** Converts the two characters at `i`; the terminator of the string is no digit. */
    method Hex2At(record: array<char>, i: nat, ghost s: string) returns (v: int)
      requires InBuffer(record, s) && i <= |s|
      ensures v == Hex2Bin(s, i)
    {
      assert forall k :: 0 <= k < |s| ==> record[k] == record[..|s|][k];
      var hi := Hex1Bin(record[i]);
      if hi < 0 {
        return -1;
      }
      var lo := Hex1Bin(record[i + 1]);
      if lo < 0 {
        return -1;
      }
      return hi * 16 + lo;
    }

    ghost predicate InBuffer(record: array<char>, s: string)
      reads record
    {
      |s| < record.Length && record[..|s|] == s && record[|s|] == NUL && NUL !in s
    }

    /** Converts `n` bytes from `i` on into `bytes`. */
    method HexBytes(record: array<char>, i: nat, n: nat, bytes: array<Byte>, ghost s: string)
      returns (ok: bool, sum: nat)
      requires InBuffer(record, s) && i <= |s| && n <= bytes.Length
      modifies bytes
      ensures ok <==> BytesAt(s, i, n).Some?
      ensures ok ==> bytes[..n] == BytesAt(s, i, n).value && sum == Sum(bytes[..n]) && i + 2 * n <= |s|
    {
      hide Hex2Bin;
      sum := 0;
      var k := 0;
      BytesFrom(s, i, 0);
      while k < n
        invariant k <= n && i + 2 * k <= |s|
        invariant BytesAt(s, i, k) == Some(bytes[..k]) && sum == Sum(bytes[..k])
      {
        var v := Hex2At(record, i + 2 * k, s);
        BytesFrom(s, i, k);
        if v < 0 {
          BytesStop(s, i, k, n);
          return false, sum;
        }
        SumJoin(bytes[..k], [v]);
        SumOne(v);
        ghost var sofar := bytes[..k];
        bytes[k] := v;
        assert bytes[..k + 1] == sofar + [v];
        sum := sum + v;
        k := k + 1;
      }
      ok := true;
    }

    /** Reads an address of `n` bytes. */
    method AddressAt(record: array<char>, i: nat, n: nat, ghost s: string) returns (ok: bool, address: nat, sum: nat)
      requires InBuffer(record, s) && i <= |s|
      ensures ok <==> BytesAt(s, i, n).Some?
      ensures ok ==> address == Number(BytesAt(s, i, n).value) && sum == Sum(BytesAt(s, i, n).value) && i + 2 * n <= |s|
    {
      hide Hex2Bin, InBuffer;
      sum, address := 0, 0;
      var k := 0;
      ghost var bytes: seq<Byte> := [];
      BytesFrom(s, i, 0);
      while k < n
        invariant k <= n && i + 2 * k <= |s|
        invariant BytesAt(s, i, k) == Some(bytes) && sum == Sum(bytes) && address == Number(bytes)
      {
        var v := Hex2At(record, i + 2 * k, s);
        BytesFrom(s, i, k);
        if v < 0 {
          BytesStop(s, i, k, n);
          return false, address, sum;
        }
        SumJoin(bytes, [v]);
        SumOne(v);
        assert (bytes + [v])[..|bytes|] == bytes;
        address := address * 256 + v;
        sum := sum + v;
        bytes := bytes + [v];
        k := k + 1;
      }
      ok := true;
    }

    /** Decodes the record in the buffer; the data goes to `bin`. */
    method SrecDecode(record: array<char>, bin: array<Byte>, ghost s: string)
      returns (code: int, count: int, address: nat)
      requires InBuffer(record, s) && bin.Length == MAX_BIN_LENGTH
      modifies bin
      ensures match Decode(s)
              case Empty => code == SREC_EMPTY
              case Error(e) => code == e < 0
              case Decoded(k, a, n, data) =>
                code == CodeOf(k) >= 0 && address == a && count == n && count <= bin.Length
                && bin[..NotNegative(n)] == data
    {
      hide Hex2Bin, BytesAt, Number, Sum;
      count, address := 0, 0;
      var i := FindS(record, s);
      if record[i] == NUL {
        return SREC_EMPTY, count, address;
      }
      assert i < |s| && record[i] == record[..|s|][i] == s[i];
      var v := record[i];
      count := Hex2At(record, i + 1, s);
      if count < 0 {
        return E_NOSREC, count, address;
      }
      var length: nat := count;
      var kind := KindOf(v);
      if kind.None? {
        return E_BADTYPE, count, address;
      }
      count := DataLength(kind.value, length);
      Hex2Inside(s, i + 1);
      var ok, sum, chksum: nat;
      ok, address, sum := AddressAt(record, i + 3, AddressLength(kind.value), s);
      if !ok {
        return E_NOSREC, count, address;
      }
      chksum := length + sum;
      var at := i + 3 + 2 * AddressLength(kind.value);
      ok, sum := HexBytes(record, at, NotNegative(count), bin, s);
      if !ok {
        return E_NOSREC, count, address;
      }
      chksum := chksum + sum;
      var check := Hex2At(record, at + 2 * NotNegative(count), s);
      if check < 0 {
        return E_NOSREC, count, address;
      }
      if check != 255 - chksum % 256 {
        return E_BADCHKS, count, address;
      }
      code := CodeOf(kind.value);
    }

    /** Skips everything up to and including the first 'S'. */
    method FindS(record: array<char>, ghost s: string) returns (i: nat)
      requires InBuffer(record, s)
      ensures i == AfterS(s)
    {
      i := 0;
      assert s[0..] == s;
      assert forall k :: 0 <= k < |s| ==> record[k] == record[..|s|][k] && s[k] in s;
      while record[i] != NUL
        invariant i <= |s| && AfterS(s) == i + AfterS(s[i..])
        decreases |s| - i
      {
        assert record[i] == record[..|s|][i] == s[i..][0] && s[i..][1..] == s[i + 1..];
        if record[i] == 'S' {
          return i + 1;
        }
        i := i + 1;
      }
    }

    /** Loads records into memory until an end record, an invalid record or an interrupt. */
    method LoadSerial(mem0: Memory, offset: nat) returns (mem: Memory, result: nat)
      requires Valid() && Load(input[pos..], mem0, offset).Some? && Load(input[pos..], mem0, offset).value.Loaded?
      modifies `pos, `output
      ensures Valid() && Loaded(mem, result) == Load(old(input[pos..]), mem0, offset).value
    {
      hide ReadLine, Decode, Written, Number, Sum;
      mem := mem0;
      var record := new char[LINE_ROOM + 1];
      var bin := new Byte[MAX_BIN_LENGTH];
      var n := 0;
      while true
        invariant Valid() && Load(input[pos..], mem, offset) == Load(old(input[pos..]), mem0, offset)
        decreases |input| - pos
      {
        LineNoNul(input[pos..], LINE_ROOM);
        n := ReadRecord(record, LINE_ROOM + 1);
        if n < 0 {
          return mem, WORD_LIMIT - 1;
        }
        var code, count, address := SrecDecode(record, bin, record[..n]);
        if code < 0 {
          return mem, WORD_LIMIT - 1;
        }
        if code == 1 || code == 2 || code == 3 {
          mem := CopyIn(mem, (address + offset) % WORD_LIMIT, bin, count);
        } else if code == 7 || code == 8 || code == 9 {
          return mem, address;
        }
      }
    }

    method CopyIn(mem0: Memory, at: nat, bin: array<Byte>, n: nat) returns (mem: Memory)
      requires n <= bin.Length
      ensures mem == Written(mem0, at, bin[..n])
    {
      mem := mem0;
      for i := 0 to n
        invariant mem == Written(mem0, at, bin[..i])
      {
        WrittenTwice(mem0, at, bin[..i], [bin[i]]);
        assert bin[..i + 1] == bin[..i] + [bin[i]];
        mem := mem[(at + i) % WORD_LIMIT := bin[i]];
      }
    }
  }

  const MAX_BIN_LENGTH: nat := 255
  const SREC_EMPTY := 10

  /** The code of a kind of record. */
  function CodeOf(k: Kind): int {
    match k
    case Start => 0
    case Data2 => 1
    case Data3 => 2
    case Data4 => 3
    case Count => 5
    case End4 => 7
    case End3 => 8
    case End2 => 9
  }

  lemma {:induction false} LineNoNul(s: string, room: nat)
    ensures ReadLine(s, room).Line? ==> NUL !in ReadLine(s, room).text
  {
    if room > 0 && s != "" {
      LineNoNul(s[1..], room - 1);
    }
  }

  lemma Hex2Inside(s: string, i: nat)
    requires Hex2Bin(s, i) >= 0
    ensures i + 2 <= |s|
  {
  }

  // ---------------------------------------------------------------- lines that are sent

  /** Where sending stands: when `left` is still to be sent, the output is to end as `goal`, and `over` is how many
      lines there are that the user does not wait for. */
  ghost predicate Going(sent: string, left: string, quiet: nat, goal: string, over: int) {
    sent + Cut(left, quiet + 1) == goal && LineEnds(left) - quiet == over
  }

  /** Sending a line brings the output nearer to its end, or to it if the user interrupts now. */
  lemma GoOn(line: string, rest: string, sent: string, quiet: nat, goal: string, over: int)
    requires '\n' !in line && Going(sent, line + "\n" + rest, quiet, goal, over)
    ensures if quiet == 0 then sent + (line + "\n") == goal && over > 0
            else Going(sent + (line + "\n"), rest, quiet - 1, goal, over)
  {
    CutLine(line, rest, quiet);
    assert sent + (line + "\n" + Cut(rest, quiet)) == sent + (line + "\n") + Cut(rest, quiet);
    if quiet == 0 {
      assert line + "\n" + "" == line + "\n";
    }
  }

  lemma GoneAll(sent: string, quiet: nat, goal: string, over: int)
    requires Going(sent, "", quiet, goal, over)
    ensures sent == goal && over <= 0
  {
  }

  lemma StartLeft(address: nat, data: seq<Byte>, sent: string, quiet: nat)
    requires address + |data| <= WORD_LIMIT
    ensures START_LINE == "S0030000FC" + "\n"
    ensures var all := Output(address, data);
            Going(sent, "S0030000FC" + "\n" + (Records(address, data) + END_LINE), quiet,
                  sent + Cut(all, quiet + 1), LineEnds(all) - quiet)
  {
    hide Records, Cut, LineEnds;
    assert Output(address, data) == "S0030000FC" + "\n" + (Records(address, data) + END_LINE);
  }

  lemma GoRecord(mem: Memory, at: nat, n: nat, more: nat, sent: string, quiet: nat, goal: string, over: int)
    requires Present(mem, at, n + more) && at + n + more <= WORD_LIMIT && 0 < n <= BYTES_PER_RECORD
    requires n == BYTES_PER_RECORD || more == 0
    requires Going(sent, Records(at, Bytes(mem, at, n + more)) + END_LINE, quiet, goal, over)
    ensures at < WORD_LIMIT && Present(mem, at + n, more)
    ensures var own := sent + Record(at, Bytes(mem, at, n)) + "\n";
            if quiet == 0 then own == goal && over > 0
            else Going(own, Records(at + n, Bytes(mem, at + n, more)) + END_LINE, quiet - 1, goal, over)
  {
    hide Record, Records, Bytes, Going;
    FirstRecord(mem, at, n, more);
    var line, rest := Record(at, Bytes(mem, at, n)), Records(at + n, Bytes(mem, at + n, more));
    RecordPlain(at, Bytes(mem, at, n));
    assert line + "\n" + rest + END_LINE == line + "\n" + (rest + END_LINE);
    GoOn(line, rest + END_LINE, sent, quiet, goal, over);
    assert sent + (line + "\n") == sent + line + "\n";
  }

  lemma EndLeft()
    ensures "" + END_LINE == END_LINE == "S70500000000FA" + "\n" && END_LINE == "S70500000000FA" + "\n" + ""
  {
  }

  // ---------------------------------------------------------------- bytes of memory

  ghost predicate Present(mem: Memory, at: nat, n: nat) {
    forall x :: at <= x < at + n ==> x in mem
  }

  ghost function Bytes(mem: Memory, at: nat, n: nat): (s: seq<Byte>)
    requires Present(mem, at, n)
    ensures |s| == n
  {
    seq(n, i requires 0 <= i < n => mem[at + i])
  }

  lemma NoBytes(mem: Memory, at: nat)
    requires at <= WORD_LIMIT
    ensures Bytes(mem, at, 0) == [] && HexAll([]) == "" && Sum([]) == 0 && Records(at, []) == ""
  {
  }

  lemma MoreBytes(mem: Memory, at: nat, n: nat)
    requires Present(mem, at, n + 1)
    ensures Present(mem, at, n)
    ensures Bytes(mem, at, n + 1) == Bytes(mem, at, n) + [mem[at + n]]
    ensures HexAll(Bytes(mem, at, n + 1)) == HexAll(Bytes(mem, at, n)) +
                                             [HexDigit(mem[at + n] / 16), HexDigit(mem[at + n] % 16)]
    ensures Sum(Bytes(mem, at, n + 1)) == Sum(Bytes(mem, at, n)) + mem[at + n]
  {
    var c := mem[at + n];
    assert Bytes(mem, at, n + 1) == Bytes(mem, at, n) + [c];
    HexJoin(Bytes(mem, at, n), [c]);
    SumJoin(Bytes(mem, at, n), [c]);
    assert HexAll([c]) == Hex2(c) + HexAll([]);
    SumOne(c);
  }

  /** The first record of what is left, when it is full or nothing is left behind it. */
  lemma FirstRecord(mem: Memory, at: nat, n: nat, more: nat)
    requires Present(mem, at, n + more) && at + n + more <= WORD_LIMIT && n <= BYTES_PER_RECORD
    requires n == BYTES_PER_RECORD || more == 0
    ensures Present(mem, at, n) && Present(mem, at + n, more)
    ensures Records(at, Bytes(mem, at, n + more)) ==
            (if n > 0 then Record(at, Bytes(mem, at, n)) + "\n" else "") + Records(at + n, Bytes(mem, at + n, more))
    ensures more > 0 || n > 0 ==> at < WORD_LIMIT
  {
    hide Record;
    var all := Bytes(mem, at, n + more);
    if more > 0 {
      assert all[..16] == Bytes(mem, at, n) && all[16..] == Bytes(mem, at + n, more);
    } else if n > 0 {
      assert Records(at + n, Bytes(mem, at + n, 0)) == "";
      assert Record(at, all) + "\n" + "" == Record(at, all) + "\n";
    }
  }

  /** The sum of the lowest `n` bytes of a number. */
  function SumOfBytes(v: nat, n: nat): nat {
    if n == 0 then 0 else v % 256 + SumOfBytes(v / 256, n - 1)
  }

  lemma LengthSum(length: nat)
    requires length < 256
    ensures SumOfBytes(length, 2) == length
  {
    assert SumOfBytes(length / 256, 1) == 0;
  }

  /** The next byte of a run of bytes. */
  lemma {:induction false} BytesFrom(s: string, i: nat, k: nat)
    ensures BytesAt(s, i, k + 1) ==
            match BytesAt(s, i, k)
            case None => None
            case Some(bytes) => if Hex2Bin(s, i + 2 * k) < 0 then None else Some(bytes + [Hex2Bin(s, i + 2 * k)])
    ensures BytesAt(s, i, 0) == Some([])
    decreases k
  {
    hide Hex2Bin;
    assert [Hex2Bin(s, i)] + [] == [] + [Hex2Bin(s, i)];
    if k > 0 && Hex2Bin(s, i) >= 0 {
      BytesFrom(s, i + 2, k - 1);
      if BytesAt(s, i + 2, k - 1).Some? {
        var rest, v := BytesAt(s, i + 2, k - 1).value, Hex2Bin(s, i + 2 * k);
        assert [Hex2Bin(s, i)] + (rest + [v]) == [Hex2Bin(s, i)] + rest + [v];
      }
    }
  }

  lemma {:induction false} BytesStop(s: string, i: nat, k: nat, n: nat)
    requires k < n && BytesAt(s, i, k + 1) == None
    ensures BytesAt(s, i, n) == None
    decreases n
  {
    if k + 1 < n {
      BytesStop(s, i, k, n - 1);
      BytesFrom(s, i, n - 1);
    }
  }

  lemma AddressSum(a: nat)
    requires a < WORD_LIMIT
    ensures SumOfBytes(a, 4) == Sum(AddressBytes(a))
  {
    var b := AddressBytes(a);
    assert b == [b[0]] + ([b[1]] + ([b[2]] + [b[3]]));
    SumJoin([b[0]], [b[1]] + ([b[2]] + [b[3]]));
    SumJoin([b[1]], [b[2]] + [b[3]]);
    SumJoin([b[2]], [b[3]]);
    SumOne(b[0]);
    SumOne(b[1]);
    SumOne(b[2]);
    SumOne(b[3]);
    var x, y, z := a / 256, a / 256 / 256, a / 256 / 256 / 256;
    assert z < 256 && z / 256 == 0;
    assert SumOfBytes(z, 1) == z;
    assert SumOfBytes(y, 2) == y % 256 + z;
    assert SumOfBytes(x, 3) == x % 256 + (y % 256 + z);
  }

  method Format(record: array<char>, s: string)
    requires |s| < record.Length
    modifies record
    ensures record[..|s|] == s && record[|s|] == NUL
  {
    for i := 0 to |s|
      invariant record[..i] == s[..i]
    {
      record[i] := s[i];
    }
    record[|s|] := NUL;
  }
}
