/** The PowerPC assembler and disassembler: operand fields, branch targets and the opcode search
    (u-boot-v1.2/common/bedbug.c, on a big-endian machine). */
module Assembler {
  import opened Basics
  import opened Words

  // ---------------------------------------------------------------- words as numbers

  function Value(b: seq<bool>): nat {
    if b == [] then 0 else (if b[0] then 1 else 0) + 2 * Value(b[1..])
  }

  lemma {:induction false} ValueOfBits(x: nat, n: nat)
    ensures Value(Bits(x, n)) == x % Pow2(n)
  {
    if n > 0 {
      ValueOfBits(x / 2, n - 1);
      assert Bits(x, n)[1..] == Bits(x / 2, n - 1);
      HalfMod(x, Pow2(n - 1));
    }
  }

  lemma HalfMod(x: nat, p: nat)
    requires p > 0
    ensures x % (2 * p) == x % 2 + 2 * ((x / 2) % p)
  {
    var h := x / 2;
    var q, r := h / p, h % p;
    assert h == p * q + r;
    assert (2 * p) * q == 2 * (p * q);
    DivIs(x, 2 * p, q, 2 * r + x % 2);
  }

  lemma {:induction false} ValueDiffers(a: seq<bool>, b: seq<bool>)
    requires |a| == |b| && Value(a) == Value(b)
    ensures a == b
  {
    if a != [] {
      ValueDiffers(a[1..], b[1..]);
      assert a == [a[0]] + a[1..] && b == [b[0]] + b[1..];
    }
  }

  lemma {:induction false} ValueGrows(a: seq<bool>, b: seq<bool>)
    requires |a| == |b| && forall i :: 0 <= i < |a| && a[i] ==> b[i]
    ensures Value(a) <= Value(b)
  {
    if a != [] {
      ValueGrows(a[1..], b[1..]);
    }
  }

  function And(a: Word, b: Word): (r: Word)
    ensures forall i :: 0 <= i < WIDTH ==> r[i] == (a[i] && b[i])
  {
    seq(WIDTH, i requires 0 <= i < WIDTH => a[i] && b[i])
  }

  function Or(a: Word, b: Word): (r: Word)
    ensures forall i :: 0 <= i < WIDTH ==> r[i] == (a[i] || b[i])
  {
    seq(WIDTH, i requires 0 <= i < WIDTH => a[i] || b[i])
  }

  // ---------------------------------------------------------------- operands

  datatype Kind = Plain | Address | Register | Spr | Tbr

  /** A field of an instruction. Silent operands are part of the opcode. */
  datatype Operand = Operand(id: nat, bits: nat, shift: nat, kind: Kind, silent: bool)
  {
    predicate Valid() {
      bits < WIDTH && bits + shift <= WIDTH && (kind == Address ==> 1 < bits <= 30)
    }

    predicate Has(i: nat) {
      shift <= i < shift + bits
    }
  }

  datatype Opcode = Opcode(code: Word, mask: Word, operands: seq<Operand>, relative: bool, name: string)
  {
    ghost predicate Valid() {
      forall o :: o in operands ==> o.Valid()
    }
  }

  /** The lowest bits of a number, moved to their place. */
  function Placed(v: nat, o: Operand): (w: Word)
    requires o.Valid()
    ensures forall i :: 0 <= i < WIDTH ==> w[i] == (o.Has(i) && Bits(v, o.bits)[i - o.shift])
  {
    seq(WIDTH, i requires 0 <= i < WIDTH => o.Has(i) && Bits(v, o.bits)[i - o.shift])
  }

  /** The value of a field. */
  function FieldOf(w: Word, o: Operand): nat
    requires o.Valid()
  {
    Value(w[o.shift..o.shift + o.bits])
  }

  predicate Apart(o: Operand, p: Operand) {
    forall i :: 0 <= i < WIDTH ==> !(o.Has(i) && p.Has(i))
  }

  predicate Clear(w: Word, o: Operand) {
    forall i :: 0 <= i < WIDTH && o.Has(i) ==> !w[i]
  }

  /** A field that was clear holds the lowest bits of what is put into it. */
  lemma FieldPut(w: Word, v: nat, o: Operand)
    requires o.Valid() && Clear(w, o)
    ensures FieldOf(Or(w, Placed(v, o)), o) == v % Pow2(o.bits)
  {
    hide Bits;
    var r := Or(w, Placed(v, o));
    assert r[o.shift..o.shift + o.bits] == Bits(v, o.bits);
    ValueOfBits(v, o.bits);
  }

  lemma FieldKept(w: Word, v: nat, o: Operand, p: Operand)
    requires o.Valid() && p.Valid() && Apart(o, p)
    ensures FieldOf(Or(w, Placed(v, o)), p) == FieldOf(w, p)
    ensures Clear(w, p) ==> Clear(Or(w, Placed(v, o)), p)
  {
    hide Bits;
    var r := Or(w, Placed(v, o));
    assert forall i :: p.shift <= i < p.shift + p.bits ==> !o.Has(i) && r[i] == w[i];
    assert r[p.shift..p.shift + p.bits] == w[p.shift..p.shift + p.bits];
  }

  // ---------------------------------------------------------------- what an operand stands for

  function Signed(x: nat): int {
    if x < 0x8000_0000 then x else x - WORD_LIMIT
  }

  /** The field of a branch target: a word offset, with its sign in the highest bit of the field. */
  function AddressField(memaddr: nat, relative: bool, target: nat, bits: nat): (v: nat)
    requires memaddr < WORD_LIMIT && target < WORD_LIMIT && bits > 1
    ensures v < Pow2(bits)
  {
    var data := Signed(if relative then (target as int - memaddr) % WORD_LIMIT else target);
    (data / 4) % Pow2(bits - 1) + (if data < 0 then Pow2(bits - 1) else 0)
  }

  /** The address the disassembler prints for a field. */
  function PrintedAddress(v: nat, bits: nat, relative: bool, memaddr: nat): nat
    requires bits > 0
  {
    var offset: int := if v >= Pow2(bits - 1) then v as int - Pow2(bits) else v;
    (offset * 4 + (if relative then memaddr else 0)) % WORD_LIMIT
  }

  /** The target is a whole number of words away, and near enough for the field. */
  predicate Reachable(memaddr: nat, target: nat, bits: nat)
    requires bits > 1
  {
    var d := Signed((target as int - memaddr) % WORD_LIMIT);
    d % 4 == 0 && -4 * Pow2(bits - 1) <= d < 4 * Pow2(bits - 1)
  }

  lemma ModRange(q: int, p: int)
    requires p > 0
    ensures q >= 0 ==> (q % p == q <==> q < p)
    ensures q < 0 ==> (q % p - p == q <==> -p <= q)
  {
    var k, r := q / p, q % p;
    assert q == p * k + r;
    if 0 <= q < p {
      DivIs(q, p, 0, q);
    }
    if -p <= q < 0 {
      DivIs(q, p, -1, q + p);
    }
  }

  /** The signed word offset that a field holds. */
  lemma FieldOffset(memaddr: nat, target: nat, bits: nat)
    requires memaddr < WORD_LIMIT && target < WORD_LIMIT && 1 < bits <= 30
    ensures var p, d := Pow2(bits - 1), Signed((target as int - memaddr) % WORD_LIMIT);
            var s := if d < 0 then (d / 4) % p - p else (d / 4) % p;
            PrintedAddress(AddressField(memaddr, true, target, bits), bits, true, memaddr) ==
            (s * 4 + memaddr) % WORD_LIMIT
  {
    var p := Pow2(bits - 1);
    assert Pow2(bits) == 2 * p;
    hide Pow2;
  }

  /** A relative target prints back as the same address exactly if the field can hold it. */
  lemma AddressBack(memaddr: nat, target: nat, bits: nat)
    requires memaddr < WORD_LIMIT && target < WORD_LIMIT && 1 < bits <= 30
    ensures PrintedAddress(AddressField(memaddr, true, target, bits), bits, true, memaddr) == target <==>
            Reachable(memaddr, target, bits)
  {
    hide Pow2, PrintedAddress, AddressField;
    var p, d := Pow2(bits - 1), Signed((target as int - memaddr) % WORD_LIMIT);
    var q := d / 4;
    var s := if d < 0 then q % p - p else q % p;
    FieldOffset(memaddr, target, bits);
    ModRange(q, p);
    Small(bits - 1);
    SignedBack(memaddr, target);
    SameTarget(memaddr, d, 4 * s);
  }

  lemma SignedBack(memaddr: nat, target: nat)
    requires memaddr < WORD_LIMIT && target < WORD_LIMIT
    ensures (memaddr + Signed((target as int - memaddr) % WORD_LIMIT)) % WORD_LIMIT == target
    ensures -0x8000_0000 <= Signed((target as int - memaddr) % WORD_LIMIT) < 0x8000_0000
  {
  }

  lemma {:induction false} Small(n: nat)
    requires n <= 29
    ensures Pow2(n) <= 0x2000_0000
  {
    Pow2At29();
    if n < 29 {
      Pow2Grows(n, 29);
    }
  }

  lemma Pow2At29()
    ensures Pow2(29) == 0x2000_0000
  {
    assert Pow2(5) == 32;
    assert Pow2(10) == 1024;
    assert Pow2(15) == 32768;
    assert Pow2(20) == 1048576;
    assert Pow2(25) == 33554432;
  }

  lemma SameTarget(memaddr: nat, d: int, e: int)
    requires memaddr < WORD_LIMIT && -0x8000_0000 <= d < 0x8000_0000 && -0x8000_0000 <= e < 0x8000_0000
             && (d < 0 <==> e < 0)
    ensures (e + memaddr) % WORD_LIMIT == (memaddr + d) % WORD_LIMIT <==> e == d
  {
  }

  // ---------------------------------------------------------------- special-purpose registers

  datatype SprInfo = SprInfo(value: nat, name: string)

  /** The halves of a ten-bit number, exchanged. */
  function Swap(v: nat): nat {
    (v / 32) % 32 + (v % 32) * 32
  }

  lemma SwapTwice(v: nat)
    requires v < 1024
    ensures Swap(v) < 1024 && Swap(Swap(v)) == v
  {
  }

  /** The first entry among those from `i` on that has the name, or none. */
  function ByName(sprs: seq<SprInfo>, name: string, i: nat): (k: nat)
    requires i <= |sprs|
    ensures i <= k <= |sprs| && (k < |sprs| ==> sprs[k].name == name)
    ensures forall j :: i <= j < k ==> sprs[j].name != name
    decreases |sprs| - i
  {
    if i == |sprs| || sprs[i].name == name then i else ByName(sprs, name, i + 1)
  }

  function ByValue(sprs: seq<SprInfo>, value: nat, i: nat): (k: nat)
    requires i <= |sprs|
    ensures i <= k <= |sprs| && (k < |sprs| ==> sprs[k].value == value)
    ensures forall j :: i <= j < k ==> sprs[j].value != value
    decreases |sprs| - i
  {
    if i == |sprs| || sprs[i].value == value then i else ByValue(sprs, value, i + 1)
  }

  /** What a number in a text means, and how one is written; the table of registers. */
  datatype Reader = Reader(number: string -> nat, decimal: nat -> string, sprs: seq<SprInfo>)
  {
    ghost predicate Valid() {
      && (forall t :: number(t) < WORD_LIMIT)
      && forall n :: StartsWithDigit(decimal(n))
    }
  }

  /** The capitals of Latin-1. */
  predicate IsUpper(c: char) {
    'A' <= c <= 'Z' || ('\U{00C0}' <= c <= '\U{00DE}' && c != '\U{00D7}')
  }

  function LowerChar(c: char): (r: char)
    ensures !IsUpper(r)
  {
    if IsUpper(c) then c + 32 as char else c
  }

  /** The text with small letters. */
  function Lower(s: string): (r: string)
    ensures |r| == |s| && forall i :: 0 <= i < |s| ==> r[i] == LowerChar(s[i])
  {
    seq(|s|, i requires 0 <= i < |s| => LowerChar(s[i]))
  }

  predicate StartsWithDigit(s: string) {
    s != "" && '0' <= s[0] <= '9'
  }

  /** The field value for the name or number of a special-purpose register; 0 if there is none. */
  function SprValue(r: Reader, txt: string): nat {
    if txt == "" then 0
    else if StartsWithDigit(txt) then Swap(r.number(txt))
    else
      var k := ByName(r.sprs, Lower(txt), 0);
      if k < |r.sprs| then Swap(r.sprs[k].value) else 0
  }

  function SprName(r: Reader, v: nat): string {
    var k := ByValue(r.sprs, Swap(v), 0);
    if k < |r.sprs| then r.sprs[k].name else r.decimal(Swap(v))
  }

  /** All numbers of the table are those of registers: not 0, and of ten bits. */
  predicate RegisterNumbers(sprs: seq<SprInfo>) {
    forall e :: e in sprs ==> 0 < e.value < 1024
  }

  predicate SmallLetters(s: string) {
    forall c :: c in s ==> !IsUpper(c)
  }

  lemma LowerKeeps(s: string)
    ensures SmallLetters(Lower(s)) && (Lower(s) == s <==> SmallLetters(s))
  {
    if SmallLetters(s) {
      assert forall i :: 0 <= i < |s| ==> s[i] in s;
    }
  }

  lemma SwapZero(v: nat)
    ensures Swap(v) == 0 <==> v % 1024 == 0
  {
  }

  /** The operand of a register is accepted exactly if it is a number that is not 0 in its ten bits, or if the table
      has its text in small letters as a name. */
  lemma SprAccepted(r: Reader, memaddr: nat, relative: bool, o: Operand, txt: string)
    requires r.Valid() && memaddr < WORD_LIMIT && o.Valid() && o.kind == Spr && RegisterNumbers(r.sprs)
    ensures ParseOperand(r, memaddr, relative, o, txt) ==
            if SprValue(r, txt) == 0 then Bad(BadSpr) else Datum(SprValue(r, txt))
    ensures ParseOperand(r, memaddr, relative, o, txt).Datum? <==>
            if StartsWithDigit(txt) then r.number(txt) % 1024 != 0
            else txt != "" && exists e :: e in r.sprs && e.name == Lower(txt)
  {
    if txt != "" {
      if StartsWithDigit(txt) {
        SwapZero(r.number(txt));
      } else {
        var k := ByName(r.sprs, Lower(txt), 0);
        if k < |r.sprs| {
          assert r.sprs[k] in r.sprs;
          SwapZero(r.sprs[k].value);
        }
      }
    }
  }

  /** A name with a capital in the table is a name that nobody can write: if all names have one, as in the table of
      the program, no register name is ever accepted. */
  lemma CapitalsNeverFound(r: Reader, memaddr: nat, relative: bool, o: Operand, txt: string)
    requires r.Valid() && memaddr < WORD_LIMIT && o.Valid() && o.kind == Spr && RegisterNumbers(r.sprs)
    ensures (forall e :: e in r.sprs ==> !SmallLetters(e.name)) && !StartsWithDigit(txt) ==>
              SprValue(r, txt) == 0 && ParseOperand(r, memaddr, relative, o, txt) == Bad(BadSpr)
  {
    SprAccepted(r, memaddr, relative, o, txt);
    LowerKeeps(txt);
  }

  /** A register name is read and prints back as itself exactly if the table has its text in small letters as a name,
      with the same number, and no entry in front of its own has that number; where no number occurs twice, exactly if
      it is in small letters itself. */
  lemma SprNameBack(r: Reader, i: nat)
    requires r.Valid() && RegisterNumbers(r.sprs)
    requires i < |r.sprs| && r.sprs[i].name != "" && !StartsWithDigit(r.sprs[i].name)
    requires forall j, k :: 0 <= j < k < |r.sprs| ==> r.sprs[j].name != r.sprs[k].name
    ensures var own := r.sprs[i];
            SprName(r, SprValue(r, own.name)) == own.name <==>
            && (exists e :: e in r.sprs && e.name == Lower(own.name) && e.value == own.value)
            && forall j :: 0 <= j < i ==> r.sprs[j].value != own.value
    ensures (forall j, k :: 0 <= j < k < |r.sprs| ==> r.sprs[j].value != r.sprs[k].value) ==>
              (SprName(r, SprValue(r, r.sprs[i].name)) == r.sprs[i].name <==> SmallLetters(r.sprs[i].name))
  {
    var own := r.sprs[i];
    var n := ByName(r.sprs, Lower(own.name), 0);
    assert own in r.sprs;
    LowerKeeps(own.name);
    forall e | e in r.sprs && e.name == Lower(own.name) ensures n < |r.sprs| && e == r.sprs[n] {
      var k :| 0 <= k < |r.sprs| && r.sprs[k] == e;
    }
    if n < |r.sprs| {
      assert r.sprs[n] in r.sprs;
      SwapTwice(r.sprs[n].value);
      NameOf(r.sprs, r.sprs[n].value, i);
    } else {
      NameOf(r.sprs, 0, i);
    }
  }

  /** Which number prints as the name of entry `i`. */
  lemma NameOf(sprs: seq<SprInfo>, value: nat, i: nat)
    requires i < |sprs| && forall j, k :: 0 <= j < k < |sprs| ==> sprs[j].name != sprs[k].name
    ensures var k := ByValue(sprs, value, 0);
            k < |sprs| && sprs[k].name == sprs[i].name <==>
            sprs[i].value == value && forall j :: 0 <= j < i ==> sprs[j].value != value
  {
    var k := ByValue(sprs, value, 0);
    if k < |sprs| && sprs[k].name == sprs[i].name {
      assert k == i;
    }
  }

  /** The first entry of the program's table: it is printed as XER, but XER is not accepted, in capitals or not. */
  lemma XerExample(r: Reader)
    requires r.Valid() && r.sprs == [SprInfo(1, "XER")]
    ensures SprName(r, Swap(1)) == "XER"
    ensures SprValue(r, "XER") == 0 && SprValue(r, "xer") == 0
    ensures SprName(r, SprValue(r, "XER")) != "XER"
  {
    SwapTwice(1);
    LowerKeeps("XER");
    LowerKeeps("xer");
    assert 'X' in "XER";
    assert SprName(r, Swap(1)) == "XER";
    assert forall e :: e in r.sprs ==> e.name == "XER";
  }

  // ---------------------------------------------------------------- assembling

  datatype Error = BadOpcode | NumOperands | BadRegister | BadSpr | BadTbr

  datatype Assembled = Failed(error: Error) | Done(instr: Word)

  /** A register number without the letter in front of it. */
  function WithoutPrefix(txt: string): string {
    if txt != "" && txt[0] in {'r', 'R'} then txt[1..]
    else if |txt| >= 2 && txt[0] == '%' && txt[1] in {'r', 'R'} then txt[2..]
    else txt
  }

  function TbrValue(r: Reader, txt: string): nat {
    if txt == "" then 0
    else if StartsWithDigit(Lower(txt)) then
      (if r.number(Lower(txt)) in {268, 269} then Swap(r.number(Lower(txt))) else 0)
    else if Lower(txt) == "tbl" then Swap(268)
    else if Lower(txt) == "tbu" then Swap(269)
    else 0
  }

  datatype Parsed = Bad(error: Error) | Datum(data: nat)

  /** The number an operand stands for, before its lowest bits are taken. */
  function ParseOperand(r: Reader, memaddr: nat, relative: bool, o: Operand, txt: string): Parsed
    requires r.Valid() && memaddr < WORD_LIMIT && o.Valid()
  {
    match o.kind
    case Address => Datum(AddressField(memaddr, relative, r.number(txt), o.bits))
    case Register =>
      var data := r.number(WithoutPrefix(txt));
      if Signed(data) > 31 then Bad(BadRegister) else Datum(data)
    case Spr => if SprValue(r, txt) == 0 then Bad(BadSpr) else Datum(SprValue(r, txt))
    case Tbr => if TbrValue(r, txt) == 0 then Bad(BadTbr) else Datum(TbrValue(r, txt))
    case Plain => Datum(r.number(txt))
  }

  /** Assembling the operands from number `k` on into an instruction. */
  function AssembleFrom(r: Reader, memaddr: nat, opc: Opcode, k: nat, words: seq<string>, instr: Word): Assembled
    requires r.Valid() && memaddr < WORD_LIMIT && opc.Valid() && k <= |opc.operands|
    decreases |opc.operands| - k
  {
    if k == |opc.operands| then Done(instr)
    else
      var o := opc.operands[k];
      if o.silent then AssembleFrom(r, memaddr, opc, k + 1, words, instr)
      else if words == [] then Failed(NumOperands)
      else
        match ParseOperand(r, memaddr, opc.relative, o, words[0])
        case Bad(e) => Failed(e)
        case Datum(data) => AssembleFrom(r, memaddr, opc, k + 1, words[1..], Or(instr, Placed(data, o)))
  }

  /** The operands that are written out lie apart from each other and from the ones of the opcode. */
  ghost predicate Separate(opc: Opcode) {
    && (forall j, k :: 0 <= j < k < |opc.operands| && !opc.operands[j].silent && !opc.operands[k].silent ==>
                         Apart(opc.operands[j], opc.operands[k]))
    && forall k :: 0 <= k < |opc.operands| && !opc.operands[k].silent ==> Clear(opc.code, opc.operands[k])
  }

  /** The field holds the lowest bits of what the operand stands for. */
  predicate Holds(instr: Word, o: Operand, p: Parsed)
    requires o.Valid()
  {
    p.Datum? && FieldOf(instr, o) == p.data % Pow2(o.bits)
  }

  /** Each written operand from number `k` on is found in its field. */
  ghost predicate Recovered(r: Reader, memaddr: nat, opc: Opcode, k: nat, words: seq<string>, instr: Word)
    requires r.Valid() && memaddr < WORD_LIMIT && opc.Valid() && k <= |opc.operands|
    decreases |opc.operands| - k
  {
    if k == |opc.operands| then true
    else if opc.operands[k].silent then Recovered(r, memaddr, opc, k + 1, words, instr)
    else
      && words != []
      && Holds(instr, opc.operands[k], ParseOperand(r, memaddr, opc.relative, opc.operands[k], words[0]))
      && Recovered(r, memaddr, opc, k + 1, words[1..], instr)
  }

  /** Later operands leave a field alone that lies apart from them. */
  lemma {:induction false} LaterKeep(r: Reader, memaddr: nat, opc: Opcode, k: nat, words: seq<string>, instr: Word,
                                     o: Operand)
    requires r.Valid() && memaddr < WORD_LIMIT && opc.Valid() && k <= |opc.operands| && o.Valid()
    requires forall j :: k <= j < |opc.operands| && !opc.operands[j].silent ==> Apart(opc.operands[j], o)
    requires AssembleFrom(r, memaddr, opc, k, words, instr).Done?
    ensures FieldOf(AssembleFrom(r, memaddr, opc, k, words, instr).instr, o) == FieldOf(instr, o)
    decreases |opc.operands| - k
  {
    hide Apart, FieldOf, ParseOperand;
    if k < |opc.operands| {
      var p := opc.operands[k];
      assert p in opc.operands;
      if p.silent {
        LaterKeep(r, memaddr, opc, k + 1, words, instr, o);
      } else {
        var data := ParseOperand(r, memaddr, opc.relative, p, words[0]).data;
        FieldKept(instr, data, p, o);
        LaterKeep(r, memaddr, opc, k + 1, words[1..], Or(instr, Placed(data, p)), o);
      }
    }
  }

  /** Fields that lie apart, and are clear in the opcode, give back what was assembled into them. */
  lemma {:induction false} OperandsRecovered(r: Reader, memaddr: nat, opc: Opcode, k: nat, words: seq<string>,
                                             instr: Word)
    requires r.Valid() && memaddr < WORD_LIMIT && opc.Valid() && k <= |opc.operands| && Separate(opc)
    requires forall j :: k <= j < |opc.operands| && !opc.operands[j].silent ==> Clear(instr, opc.operands[j])
    requires AssembleFrom(r, memaddr, opc, k, words, instr).Done?
    ensures Recovered(r, memaddr, opc, k, words, AssembleFrom(r, memaddr, opc, k, words, instr).instr)
    decreases |opc.operands| - k
  {
    hide Apart, Clear, FieldOf, ParseOperand;
    if k < |opc.operands| {
      var o := opc.operands[k];
      assert o in opc.operands;
      if o.silent {
        OperandsRecovered(r, memaddr, opc, k + 1, words, instr);
      } else {
        var data := ParseOperand(r, memaddr, opc.relative, o, words[0]).data;
        var next := Or(instr, Placed(data, o));
        FieldPut(instr, data, o);
        forall j | k + 1 <= j < |opc.operands| && !opc.operands[j].silent
          ensures Clear(next, opc.operands[j]) && Apart(opc.operands[j], o)
        {
          assert opc.operands[j] in opc.operands;
          FieldKept(instr, data, o, opc.operands[j]);
          ApartBoth(o, opc.operands[j]);
        }
        OperandsRecovered(r, memaddr, opc, k + 1, words[1..], next);
        LaterKeep(r, memaddr, opc, k + 1, words[1..], next, o);
      }
    }
  }

  lemma ApartBoth(o: Operand, p: Operand)
    ensures Apart(o, p) <==> Apart(p, o)
  {
  }

  /** The bits of the opcode's mask that no written operand covers are the opcode's. */
  lemma {:induction false} CodeKept(r: Reader, memaddr: nat, opc: Opcode, k: nat, words: seq<string>, instr: Word,
                                    i: nat)
    requires r.Valid() && memaddr < WORD_LIMIT && opc.Valid() && k <= |opc.operands| && i < WIDTH
    requires forall j :: k <= j < |opc.operands| && !opc.operands[j].silent ==> !opc.operands[j].Has(i)
    requires AssembleFrom(r, memaddr, opc, k, words, instr).Done?
    ensures AssembleFrom(r, memaddr, opc, k, words, instr).instr[i] == instr[i]
    decreases |opc.operands| - k
  {
    hide ParseOperand, Bits;
    if k < |opc.operands| {
      var o := opc.operands[k];
      assert o in opc.operands;
      if o.silent {
        CodeKept(r, memaddr, opc, k + 1, words, instr, i);
      } else {
        var data := ParseOperand(r, memaddr, opc.relative, o, words[0]).data;
        CodeKept(r, memaddr, opc, k + 1, words[1..], Or(instr, Placed(data, o)), i);
      }
    }
  }

  // ---------------------------------------------------------------- finding an opcode

  predicate Matches(opc: Opcode, instr: Word) {
    And(instr, opc.mask) == opc.code
  }

  /** Where the search stands for entry `i`: below the entry, at it, or above it. */
  predicate Below(opc: Opcode, instr: Word) {
    Value(And(instr, opc.mask)) < Value(opc.code)
  }

  predicate Above(opc: Opcode, instr: Word) {
    Value(And(instr, opc.mask)) > Value(opc.code)
  }

  /** Every entry in front of `t` is passed upwards and every entry behind it downwards, whatever the operands are: the
      smallest and the largest instruction of entry `t` say so. */
  ghost predicate InOrder(table: seq<Opcode>, t: nat)
    requires t < |table|
  {
    && (forall i :: 0 <= i < t ==> Above(table[i], table[t].code))
    && (forall i :: t < i < |table| ==> Below(table[i], Or(table[t].code, Not(table[t].mask))))
  }

  lemma MatchBetween(opc: Opcode, instr: Word, mask: Word)
    requires Matches(opc, instr)
    ensures Value(And(opc.code, mask)) <= Value(And(instr, mask)) <= Value(And(Or(opc.code, Not(opc.mask)), mask))
  {
    assert forall i :: 0 <= i < WIDTH ==> And(instr, opc.mask)[i] == opc.code[i];
    ValueGrows(And(opc.code, mask), And(instr, mask));
    ValueGrows(And(instr, mask), And(Or(opc.code, Not(opc.mask)), mask));
  }

  /** A comparison passes the entry downwards or upwards as the order says. */
  lemma OrderPasses(table: seq<Opcode>, instr: Word, t: nat, idx: nat)
    requires t < |table| && idx < |table| && InOrder(table, t) && Matches(table[t], instr)
    ensures (t < idx ==> Below(table[idx], instr)) && (t > idx ==> Above(table[idx], instr))
  {
    hide Matches, Value;
    MatchBetween(table[t], instr, table[idx].mask);
  }

  /** In a table that is in order the binary search finds entry `t` for every instruction that matches it. */
  method FindOpcode(table: seq<Opcode>, instr: Word) returns (r: int)
    ensures -1 <= r < |table| && (r >= 0 ==> Matches(table[r], instr))
    ensures forall t :: 0 <= t < |table| && InOrder(table, t) && Matches(table[t], instr) ==> r == t
  {
    hide Matches, InOrder, Value, And;
    var top, bottom := 0, |table| - 1;
    while top <= bottom
      invariant 0 <= top <= bottom + 1 <= |table|
      invariant forall t :: 0 <= t < |table| && InOrder(table, t) && Matches(table[t], instr) ==> top <= t <= bottom
    {
      var idx := (top + bottom) / 2;
      var masked := Value(And(instr, table[idx].mask));
      forall t | 0 <= t < |table| && InOrder(table, t) && Matches(table[t], instr)
        ensures (t < idx ==> masked < Value(table[idx].code)) && (t > idx ==> masked > Value(table[idx].code))
      {
        OrderPasses(table, instr, t, idx);
      }
      MatchIsEqual(table[idx], instr);
      if masked < Value(table[idx].code) {
        bottom := idx - 1;
      } else if masked > Value(table[idx].code) {
        top := idx + 1;
      } else {
        return idx;
      }
    }
    return -1;
  }

  lemma MatchIsEqual(opc: Opcode, instr: Word)
    ensures Matches(opc, instr) <==> Value(And(instr, opc.mask)) == Value(opc.code)
  {
    if Value(And(instr, opc.mask)) == Value(opc.code) {
      ValueDiffers(And(instr, opc.mask), opc.code);
    }
  }

  /** An assembled instruction matches its opcode, if no written operand reaches into the mask. */
  lemma AssembledMatches(r: Reader, memaddr: nat, opc: Opcode, words: seq<string>)
    requires r.Valid() && memaddr < WORD_LIMIT && opc.Valid()
    requires And(opc.code, opc.mask) == opc.code
    requires forall k :: 0 <= k < |opc.operands| && !opc.operands[k].silent ==> Clear(opc.mask, opc.operands[k])
    requires AssembleFrom(r, memaddr, opc, 0, words, opc.code).Done?
    ensures Matches(opc, AssembleFrom(r, memaddr, opc, 0, words, opc.code).instr)
  {
    var w := AssembleFrom(r, memaddr, opc, 0, words, opc.code).instr;
    forall i | 0 <= i < WIDTH ensures And(w, opc.mask)[i] == opc.code[i] {
      if opc.mask[i] {
        CodeKept(r, memaddr, opc, 0, words, opc.code, i);
      } else {
        assert !And(opc.code, opc.mask)[i];
      }
    }
  }

  // ---------------------------------------------------------------- the program

  /** The value of the operand with number `id`, if the opcode has it. */
  method GetOperandValue(opc: Opcode, instr: Word, id: nat) returns (found: bool, value: nat)
    requires opc.Valid()
    ensures found <==> exists k :: 0 <= k < |opc.operands| && opc.operands[k].id == id
    ensures found ==> exists k :: 0 <= k < |opc.operands| && opc.operands[k].id == id
                                  && value == FieldOf(instr, opc.operands[k])
                                  && forall j :: 0 <= j < k ==> opc.operands[j].id != id
  {
    value := 0;
    for i := 0 to |opc.operands|
      invariant forall j :: 0 <= j < i ==> opc.operands[j].id != id
    {
      if opc.operands[i].id == id {
        assert opc.operands[i] in opc.operands;
        return true, FieldOf(instr, opc.operands[i]);
      }
    }
    found := false;
  }

  method FindOpcodeByName(table: seq<Opcode>, name: string) returns (r: int)
    ensures if r == -1 then forall i :: 0 <= i < |table| ==> table[i].name != name
            else 0 <= r < |table| && table[r].name == name && forall i :: 0 <= i < r ==> table[i].name != name
  {
    for idx := 0 to |table|
      invariant forall i :: 0 <= i < idx ==> table[i].name != name
    {
      if name == table[idx].name {
        return idx;
      }
    }
    r := -1;
  }

  /** Assembles the words of a line: the name of an opcode and its operands. A blank line is no error. */
  method AsmPpc(r: Reader, table: seq<Opcode>, memaddr: nat, line: seq<string>) returns (a: Assembled, at: int)
    requires r.Valid() && memaddr < WORD_LIMIT && forall opc :: opc in table ==> opc.Valid()
    ensures -1 <= at < |table|
    ensures line == [] ==> at == -1 && a == Done(Bits(0, WIDTH))
    ensures at == -1 && line != [] ==>
              a == Failed(BadOpcode) && forall i :: 0 <= i < |table| ==> table[i].name != Lower(line[0])
    ensures at >= 0 ==> line != [] && table[at].name == Lower(line[0]) && table[at].Valid() &&
                        a == AssembleFrom(r, memaddr, table[at], 0, line[1..], table[at].code)
  {
    if line == [] {
      return Done(Bits(0, WIDTH)), -1;
    }
    at := FindOpcodeByName(table, Lower(line[0]));
    if at == -1 {
      return Failed(BadOpcode), at;
    }
    var opc := table[at];
    assert opc in table;
    var instr := opc.code;
    var k, next := 0, 1;
    while k < |opc.operands|
      invariant 0 <= k <= |opc.operands| && 1 <= next <= |line|
      invariant AssembleFrom(r, memaddr, opc, k, line[next..], instr) ==
                AssembleFrom(r, memaddr, opc, 0, line[1..], opc.code)
    {
      var o := opc.operands[k];
      assert o in opc.operands;
      if !o.silent {
        if next == |line| {
          assert line[next..] == [];
          return Failed(NumOperands), at;
        }
        assert line[next..][0] == line[next] && line[next..][1..] == line[next + 1..];
        var p := ParseOperand(r, memaddr, opc.relative, o, line[next]);
        if p.Bad? {
          return Failed(p.error), at;
        }
        instr := Or(instr, Placed(p.data, o));
        next := next + 1;
      }
      k := k + 1;
    }
    a := Done(instr);
  }
}
