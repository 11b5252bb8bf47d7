/** What operands mean to the assembler, kind by kind, and how assembling them ends (u-boot-v1.2/common/bedbug.c). */
module AssemblerOperands {
  import opened Basics
  import opened Words
  import opened Assembler

  // ---------------------------------------------------------------- addresses

  /** Every branch over a whole number of words that is near enough, forwards or backwards, prints back. */
  lemma BranchBack(memaddr: nat, distance: int, bits: nat)
    requires memaddr < WORD_LIMIT && 1 < bits <= 30
    requires distance % 4 == 0 && -4 * Pow2(bits - 1) <= distance < 4 * Pow2(bits - 1)
    ensures var target := (memaddr + distance) % WORD_LIMIT;
            PrintedAddress(AddressField(memaddr, true, target, bits), bits, true, memaddr) == target
  {
    hide Pow2;
    var target := (memaddr + distance) % WORD_LIMIT;
    Small(bits - 1);
    DistanceBack(memaddr, distance);
    AddressBack(memaddr, target, bits);
  }

  lemma DistanceBack(memaddr: nat, distance: int)
    requires memaddr < WORD_LIMIT && -0x8000_0000 <= distance < 0x8000_0000
    ensures Signed(((memaddr + distance) % WORD_LIMIT - memaddr) % WORD_LIMIT) == distance
  {
  }

  /** The field of a relative target is the distance in words, in two's complement. */
  lemma FieldIsDistance(memaddr: nat, distance: int, bits: nat)
    requires memaddr < WORD_LIMIT && 1 < bits <= 30
    requires distance % 4 == 0 && -4 * Pow2(bits - 1) <= distance < 4 * Pow2(bits - 1)
    ensures AddressField(memaddr, true, (memaddr + distance) % WORD_LIMIT, bits) == (distance / 4) % Pow2(bits)
  {
    var p, q := Pow2(bits - 1), distance / 4;
    assert Pow2(bits) == 2 * p;
    hide Pow2;
    Small(bits - 1);
    DistanceBack(memaddr, distance);
    ModRange(q, p);
    if q >= 0 {
      DivIs(q, 2 * p, 0, q);
    } else {
      DivIs(q, 2 * p, -1, q + 2 * p);
    }
  }

  /** An absolute target prints back as itself exactly if it is a whole number of words, near enough to address 0 on
      either side. */
  lemma AbsoluteBack(memaddr: nat, target: nat, bits: nat)
    requires memaddr < WORD_LIMIT && target < WORD_LIMIT && 1 < bits <= 30
    ensures var s := if target < 0x8000_0000 then target else target - 0x1_0000_0000;
            PrintedAddress(AddressField(memaddr, false, target, bits), bits, false, memaddr) == target <==>
            s % 4 == 0 && -4 * Pow2(bits - 1) <= s < 4 * Pow2(bits - 1)
  {
    hide Pow2, PrintedAddress, AddressField;
    FromZero(memaddr, target, bits);
    AddressBack(0, target, bits);
  }

  lemma FromZero(memaddr: nat, target: nat, bits: nat)
    requires memaddr < WORD_LIMIT && target < WORD_LIMIT && 1 < bits <= 30
    ensures AddressField(memaddr, false, target, bits) == AddressField(0, true, target, bits)
    ensures forall v :: PrintedAddress(v, bits, false, memaddr) == PrintedAddress(v, bits, true, 0)
  {
    hide Pow2;
  }

  // ---------------------------------------------------------------- registers

  /** The upper five bits of a register number become the lower five, and the other way round. */
  lemma SwapHalves(v: nat)
    requires v < 1024
    ensures Swap(v) < 1024 && Swap(v) % 32 == v / 32 && Swap(v) / 32 == v % 32
  {
  }

  /** A general register is its number up to 31, with or without the letter, in either case, or a per cent sign. */
  lemma RegisterOperand(r: Reader, memaddr: nat, relative: bool, o: Operand, t: string)
    requires r.Valid() && memaddr < WORD_LIMIT && o.Valid() && o.kind == Register
    requires t != "" && t[0] != 'r' && t[0] != 'R' && t[0] != '%'
    ensures var n := r.number(t);
            var p := if n < 0x8000_0000 && n > 31 then Bad(BadRegister) else Datum(n);
            && ParseOperand(r, memaddr, relative, o, t) == p
            && ParseOperand(r, memaddr, relative, o, "r" + t) == p
            && ParseOperand(r, memaddr, relative, o, "R" + t) == p
            && ParseOperand(r, memaddr, relative, o, "%r" + t) == p
            && ParseOperand(r, memaddr, relative, o, "%R" + t) == p
  {
    assert ("r" + t)[1..] == t && ("R" + t)[1..] == t;
    assert ("%r" + t)[2..] == t && ("%R" + t)[2..] == t;
  }

  /** The time base registers are 268 and 269, by name or by number; nothing else is accepted. */
  lemma TimeBaseOperand(r: Reader, memaddr: nat, relative: bool, o: Operand, t: string)
    requires r.Valid() && memaddr < WORD_LIMIT && o.Valid() && o.kind == Tbr
    ensures ParseOperand(r, memaddr, relative, o, "tbl") == ParseOperand(r, memaddr, relative, o, "TBL") == Datum(392)
    ensures ParseOperand(r, memaddr, relative, o, "tbu") == ParseOperand(r, memaddr, relative, o, "TBU") == Datum(424)
    ensures t != "" && '0' <= t[0] <= '9' ==>
              ParseOperand(r, memaddr, relative, o, t) ==
              if r.number(Lower(t)) == 268 then Datum(392)
              else if r.number(Lower(t)) == 269 then Datum(424)
              else Bad(BadTbr)
    ensures t == "" || (!('0' <= t[0] <= '9') && Lower(t) != "tbl" && Lower(t) != "tbu") ==>
              ParseOperand(r, memaddr, relative, o, t) == Bad(BadTbr)
  {
    assert Lower("tbl") == "tbl" && Lower("TBL") == "tbl" && Lower("tbu") == "tbu" && Lower("TBU") == "tbu";
    if t != "" {
      assert Lower(t)[0] == LowerChar(t[0]);
    }
  }

  /** Every other operand is the number written. */
  lemma PlainOperand(r: Reader, memaddr: nat, relative: bool, o: Operand, t: string)
    requires r.Valid() && memaddr < WORD_LIMIT && o.Valid() && o.kind == Plain
    ensures ParseOperand(r, memaddr, relative, o, t) == Datum(r.number(t))
  {
  }

  // ---------------------------------------------------------------- the operands of a line

  /** The operands from number `k` on that are written. */
  function Visible(opc: Opcode, k: nat): (v: seq<Operand>)
    requires k <= |opc.operands|
    ensures forall o :: o in v ==> o in opc.operands
    decreases |opc.operands| - k
  {
    if k == |opc.operands| then []
    else if opc.operands[k].silent then Visible(opc, k + 1)
    else [opc.operands[k]] + Visible(opc, k + 1)
  }

  /** The place of the first operand without a word, or whose word is not accepted; their number if there is none. */
  function FirstBad(r: Reader, memaddr: nat, relative: bool, v: seq<Operand>, words: seq<string>): (n: nat)
    requires r.Valid() && memaddr < WORD_LIMIT && forall o :: o in v ==> o.Valid()
    ensures n <= |v| && n <= |words|
    ensures forall i :: 0 <= i < n ==> ParseOperand(r, memaddr, relative, v[i], words[i]).Datum?
    ensures n < |v| && n < |words| ==> ParseOperand(r, memaddr, relative, v[n], words[n]).Bad?
  {
    if v == [] || words == [] then 0
    else
      assert v[0] in v;
      if ParseOperand(r, memaddr, relative, v[0], words[0]).Bad? then 0
      else 1 + FirstBad(r, memaddr, relative, v[1..], words[1..])
  }

  /** The error of a line: that of the first word that is not accepted, or that there are too few words; none exactly
      if each operand has a word that is accepted. */
  function LineError(r: Reader, memaddr: nat, relative: bool, v: seq<Operand>, words: seq<string>): (e: Option<Error>)
    requires r.Valid() && memaddr < WORD_LIMIT && forall o :: o in v ==> o.Valid()
    ensures var n := FirstBad(r, memaddr, relative, v, words);
            && (e.None? <==> n == |v|)
            && (n < |v| && n == |words| ==> e == Some(NumOperands))
            && (n < |v| && n < |words| ==> e == Some(ParseOperand(r, memaddr, relative, v[n], words[n]).error))
  {
    var n := FirstBad(r, memaddr, relative, v, words);
    if n == |v| then None
    else if n == |words| then Some(NumOperands)
    else Some(ParseOperand(r, memaddr, relative, v[n], words[n]).error)
  }

  lemma LineErrorFirst(r: Reader, memaddr: nat, relative: bool, o: Operand, rest: seq<Operand>, words: seq<string>)
    requires r.Valid() && memaddr < WORD_LIMIT && o.Valid() && forall p :: p in rest ==> p.Valid()
    ensures var e := LineError(r, memaddr, relative, [o] + rest, words);
            if words == [] then e == Some(NumOperands)
            else match ParseOperand(r, memaddr, relative, o, words[0])
                 case Bad(error) => e == Some(error)
                 case Datum(_) => e == LineError(r, memaddr, relative, rest, words[1..])
  {
    hide ParseOperand;
    assert ([o] + rest)[1..] == rest;
  }

  /** Assembling succeeds exactly if the line has no error, and ends with its error otherwise. Words that are left
      over are ignored. */
  lemma {:induction false} AssembleEnds(r: Reader, memaddr: nat, opc: Opcode, k: nat, words: seq<string>, instr: Word)
    requires r.Valid() && memaddr < WORD_LIMIT && opc.Valid() && k <= |opc.operands|
    ensures var v, a := Visible(opc, k), AssembleFrom(r, memaddr, opc, k, words, instr);
            && (forall o :: o in v ==> o.Valid())
            && match LineError(r, memaddr, opc.relative, v, words)
               case None => a.Done?
               case Some(e) => a == Failed(e)
    decreases |opc.operands| - k
  {
    hide ParseOperand, Or, Placed, LineError;
    if k < |opc.operands| {
      var o := opc.operands[k];
      assert o in opc.operands;
      if o.silent {
        AssembleEnds(r, memaddr, opc, k + 1, words, instr);
      } else {
        LineErrorFirst(r, memaddr, opc.relative, o, Visible(opc, k + 1), words);
        if words != [] {
          var p := ParseOperand(r, memaddr, opc.relative, o, words[0]);
          if p.Datum? {
            AssembleEnds(r, memaddr, opc, k + 1, words[1..], Or(instr, Placed(p.data, o)));
          }
        }
      }
    } else {
      NoError(r, memaddr, opc.relative, words);
    }
  }

  lemma NoError(r: Reader, memaddr: nat, relative: bool, words: seq<string>)
    requires r.Valid() && memaddr < WORD_LIMIT
    ensures LineError(r, memaddr, relative, [], words) == None
  {
  }
}
