/** What the ECC can do: every single flipped bit is repaired, every pair of them is reported. */
module NandEccTheorems {
  import opened NandEcc
  import Words

  /** One flipped bit among the 2048 of a block or the 24 of its code. */
  datatype Flip = DataBit(j: nat, k: nat) | CodeBit(b: nat, k: nat)
  {
    predicate Valid() {
      k < 8 && if DataBit? then j < BLOCK_SIZE else b < 3
    }

    /** The two low bits of the third code byte are constant and carry nothing. */
    predicate Significant() {
      Valid() && !(CodeBit? && b == 2 && k < 2)
    }
  }

  function Toggle(block: seq<bv8>, j: nat, k: nat): (r: seq<bv8>)
    requires j < |block| && k < 8
    ensures |r| == |block|
  {
    block[j := XorByte(block[j], Bit(k))]
  }

  function OneHot(b: nat, k: nat): Code
    requires k < 8
  {
    Code(if b == 0 then Bit(k) else 0, if b == 1 then Bit(k) else 0, if b == 2 then Bit(k) else 0)
  }

  /** A block and the code stored with it. */
  datatype Stored = Stored(block: seq<bv8>, code: Code)

  function Disturb(s: Stored, f: Flip): (r: Stored)
    requires |s.block| == BLOCK_SIZE && f.Valid()
    ensures |r.block| == BLOCK_SIZE
  {
    match f
    case DataBit(j, k) => Stored(Toggle(s.block, j, k), s.code)
    case CodeBit(b, k) => Stored(s.block, Xor(s.code, OneHot(b, k)))
  }

  /** What a reader makes of a stored block: the code is recalculated and the block corrected by it. */
  function Read(s: Stored): Correction
    requires |s.block| == BLOCK_SIZE
  {
    Correct(s.block, s.code, CodeOf(s.block))
  }

  // ---------------------------------------------------------------- the effect of a flipped data bit on the code

  lemma ToggleByte(x: bv8, k: nat, c: nat)
    requires k < 8
    ensures XorAll(Column(XorByte(x, Bit(k)), c)) == (XorAll(Column(x, c)) != InColumn(c, k))
  {
    hide HasBit, XorByte, Bit;
    var before, after := Column(x, c), Column(XorByte(x, Bit(k)), c);
    forall p | 0 <= p < 8 ensures after[p] == (before[p] != (p == k && InColumn(c, k))) {
      ToggledBit(x, k, p);
    }
    Toggled(before, after, k, InColumn(c, k));
  }

  /** Changing one value or none. */
  lemma Toggled(before: seq<bool>, after: seq<bool>, j: nat, change: bool)
    requires |after| == |before| && j < |before|
    requires forall p :: 0 <= p < |before| ==> after[p] == (before[p] != (p == j && change))
    ensures XorAll(after) == (XorAll(before) != change)
  {
    if change {
      assert after == before[j := !before[j]];
      XorAllFlip(before, j);
    } else {
      assert after == before;
    }
  }

  lemma ToggledBit(x: bv8, k: nat, p: nat)
    requires k < 8 && p < 8
    ensures HasBit(XorByte(x, Bit(k)), p) == (HasBit(x, p) != (p == k))
  {
    hide HasBit, XorByte, Bit;
    BitOfXor(x, Bit(k), p);
    BitOfBit(k, p);
  }

  lemma BitOfBit(k: nat, p: nat)
    requires k < 8 && p < 8
    ensures HasBit(Bit(k), p) == (p == k)
  {
  }

  lemma ToggleCover(block: seq<bv8>, j: nat, k: nat, c: nat)
    requires j < |block| && k < 8
    ensures forall n :: 0 <= n < |block| ==>
                          ColumnCover(Toggle(block, j, k), c)[n] ==
                          (ColumnCover(block, c)[n] != (n == j && InColumn(c, k)))
  {
    ToggleByte(block[j], k, c);
  }

  lemma ToggleColumn(block: seq<bv8>, j: nat, k: nat, c: nat)
    requires j < |block| && k < 8
    ensures ColumnParity(Toggle(block, j, k), c) == (ColumnParity(block, c) != InColumn(c, k))
  {
    ToggleCover(block, j, k, c);
    Toggled(ColumnCover(block, c), ColumnCover(Toggle(block, j, k), c), j, InColumn(c, k));
  }

  lemma ToggleLine(block: seq<bv8>, j: nat, k: nat, i: nat, v: bool)
    requires j < |block| && k < 8
    ensures LineParity(Toggle(block, j, k), i, v) == (LineParity(block, i, v) != (InLine(j, i) == v))
  {
    ToggleCover(block, j, k, 6);
    ToggleSelected(ColumnCover(block, 6), ColumnCover(Toggle(block, j, k), 6), j, i, v);
  }

  lemma ToggleSelected(before: seq<bool>, after: seq<bool>, j: nat, i: nat, v: bool)
    requires |after| == |before| && j < |before|
    requires forall n :: 0 <= n < |before| ==> after[n] == (before[n] != (n == j))
    ensures XorAll(Select(after, i, v)) == (XorAll(Select(before, i, v)) != (InLine(j, i) == v))
  {
    Toggled(Select(before, i, v), Select(after, i, v), j, InLine(j, i) == v);
  }

  /** For four position bits from `i`, a flipped bit changes the set or the clear line parity of each. */
  function LineChange(j: nat, i: nat): (r: seq<bool>)
    requires i <= 4
    ensures |r| == 8
  {
    seq(8, b requires 0 <= b < 8 => InLine(j, i + b / 2) == (b % 2 == 1))
  }

  function ColumnChange(k: nat): (r: seq<bool>)
    ensures |r| == 8
  {
    seq(8, b requires 0 <= b < 8 => b >= 2 && InColumn(b - 2, k))
  }

  /** `d` is the change in the code that flipping bit `k` of byte `j` makes. */
  ghost predicate IsChange(d: Code, j: nat, k: nat)
    requires j < BLOCK_SIZE
  {
    && Bits(d.c0) == LineChange(j, 4)
    && Bits(d.c1) == LineChange(j, 0)
    && Bits(d.c2) == ColumnChange(k)
  }

  lemma CodeOfToggle(block: seq<bv8>, j: nat, k: nat)
    requires |block| == BLOCK_SIZE && j < BLOCK_SIZE && k < 8
    ensures IsChange(Xor(CodeOf(Toggle(block, j, k)), CodeOf(block)), j, k)
  {
    hide XorByte, Bits, LineBits, ColumnBits, LineChange, ColumnChange, CodeOf, Toggle;
    var c, c' := CodeOf(block), CodeOf(Toggle(block, j, k));
    LinesOfToggle(block, j, k, 4);
    LinesOfToggle(block, j, k, 0);
    ColumnsOfToggle(block, j, k);
    BitsChange(c'.c0, c.c0, LineBits(Toggle(block, j, k), 4), LineBits(block, 4));
    BitsChange(c'.c1, c.c1, LineBits(Toggle(block, j, k), 0), LineBits(block, 0));
    BitsChange(c'.c2, c.c2, ColumnBits(Toggle(block, j, k)), ColumnBits(block));
  }

  lemma BitsChange(x: bv8, y: bv8, a: seq<bool>, b: seq<bool>)
    requires Bits(x) == a && Bits(y) == b
    ensures Bits(XorByte(x, y)) == XorBits(a, b)
  {
    hide XorByte, Bits;
    BitsOfXor(x, y);
  }

  lemma LinesOfToggle(block: seq<bv8>, j: nat, k: nat, i: nat)
    requires |block| == BLOCK_SIZE && j < BLOCK_SIZE && k < 8 && i <= 4
    ensures XorBits(LineBits(Toggle(block, j, k), i), LineBits(block, i)) == LineChange(j, i)
  {
    forall b | 0 <= b < 8
      ensures LineBits(Toggle(block, j, k), i)[b] == (LineBits(block, i)[b] != LineChange(j, i)[b])
    {
      ToggleLine(block, j, k, i + b / 2, b % 2 == 1);
    }
  }

  lemma ColumnsOfToggle(block: seq<bv8>, j: nat, k: nat)
    requires |block| == BLOCK_SIZE && j < BLOCK_SIZE && k < 8
    ensures XorBits(ColumnBits(Toggle(block, j, k)), ColumnBits(block)) == ColumnChange(k)
  {
    forall b | 0 <= b < 8
      ensures ColumnBits(Toggle(block, j, k))[b] == (ColumnBits(block)[b] != ColumnChange(k)[b])
    {
      if b >= 2 {
        ToggleColumn(block, j, k, b - 2);
      }
    }
  }

  // ---------------------------------------------------------------- reading the change back

  lemma PairsOfByte(c: bv8)
    ensures (c ^ (c >> 1)) & 0x55 == 0x55 <==>
            HasBit(c, 1) != HasBit(c, 0) && HasBit(c, 3) != HasBit(c, 2) &&
            HasBit(c, 5) != HasBit(c, 4) && HasBit(c, 7) != HasBit(c, 6)
    ensures (c ^ (c >> 1)) & 0x54 == 0x54 <==>
            HasBit(c, 3) != HasBit(c, 2) && HasBit(c, 5) != HasBit(c, 4) && HasBit(c, 7) != HasBit(c, 6)
  {
  }

  /** Every pair of bits of the two line bytes differs, and every used pair of the third. */
  ghost predicate AllPairsDiffer(d: Code) {
    && (forall i :: 0 <= i < 4 ==> HasBit(d.c0, 2 * i + 1) != HasBit(d.c0, 2 * i))
    && (forall i :: 0 <= i < 4 ==> HasBit(d.c1, 2 * i + 1) != HasBit(d.c1, 2 * i))
    && (forall i :: 1 <= i < 4 ==> HasBit(d.c2, 2 * i + 1) != HasBit(d.c2, 2 * i))
  }

  lemma OneDataBitMeansPairs(d: Code)
    ensures OneDataBit(d) <==> AllPairsDiffer(d)
  {
    hide HasBit;
    PairsOfByte(d.c0);
    PairsOfByte(d.c1);
    PairsOfByte(d.c2);
    if AllPairsDiffer(d) {
      assert HasBit(d.c0, 2 * 0 + 1) != HasBit(d.c0, 2 * 0) && HasBit(d.c0, 2 * 1 + 1) != HasBit(d.c0, 2 * 1);
      assert HasBit(d.c0, 2 * 2 + 1) != HasBit(d.c0, 2 * 2) && HasBit(d.c0, 2 * 3 + 1) != HasBit(d.c0, 2 * 3);
      assert HasBit(d.c1, 2 * 0 + 1) != HasBit(d.c1, 2 * 0) && HasBit(d.c1, 2 * 1 + 1) != HasBit(d.c1, 2 * 1);
      assert HasBit(d.c1, 2 * 2 + 1) != HasBit(d.c1, 2 * 2) && HasBit(d.c1, 2 * 3 + 1) != HasBit(d.c1, 2 * 3);
      assert HasBit(d.c2, 2 * 1 + 1) != HasBit(d.c2, 2 * 1) && HasBit(d.c2, 2 * 2 + 1) != HasBit(d.c2, 2 * 2);
      assert HasBit(d.c2, 2 * 3 + 1) != HasBit(d.c2, 2 * 3);
    }
  }

  lemma HighNibbleBit(c: bv8, i: nat)
    requires i < 4
    ensures HasBit(HighNibble(c), 4 + i) == HasBit(c, 2 * i + 1)
    ensures HasBit(LowNibble(c), i) == HasBit(c, 2 * i + 1)
    ensures !HasBit(HighNibble(c), i) && !HasBit(LowNibble(c), 4 + i)
  {
  }

  function LowNibble(c: bv8): bv8 {
    HighNibble(c) >> 4
  }

  function OrByte(x: bv8, y: bv8): bv8 {
    x | y
  }

  lemma AddressParts(d: Code)
    ensures AddressOf(d) == OrByte(HighNibble(d.c0), LowNibble(d.c1))
  {
  }

  lemma AddressBit(d: Code, i: nat)
    requires i < 4
    ensures HasBit(AddressOf(d), 4 + i) == HasBit(d.c0, 2 * i + 1)
    ensures HasBit(AddressOf(d), i) == HasBit(d.c1, 2 * i + 1)
  {
    hide *;
    AddressParts(d);
    BitOfOr(HighNibble(d.c0), LowNibble(d.c1), i);
    BitOfOr(HighNibble(d.c0), LowNibble(d.c1), 4 + i);
    HighNibbleBit(d.c0, i);
    HighNibbleBit(d.c1, i);
  }

  lemma BitOfOr(x: bv8, y: bv8, i: nat)
    requires i < 8
    ensures HasBit(OrByte(x, y), i) == (HasBit(x, i) || HasBit(y, i))
  {
    hide Bit;
    OrMask(x, y, i);
  }

  lemma OrMask(x: bv8, y: bv8, i: nat)
    requires i < 8
    ensures (x | y) & Bit(i) != 0 <==> x & Bit(i) != 0 || y & Bit(i) != 0
  {
  }

  lemma BitNumberOf(c: bv8, k: nat)
    requires k < 8
    requires HasBit(c, 7) == (k / 4 == 1) && HasBit(c, 5) == (k / 2 % 2 == 1) && HasBit(c, 3) == (k % 2 == 1)
    ensures (0x01 << (HighNibble(c) >> 5)) == Bit(k)
  {
  }

  /** The change that one flipped data bit makes is taken for just that, and its place is read off it. */
  lemma ChangeDecodes(d: Code, j: nat, k: nat)
    requires j < BLOCK_SIZE && k < 8 && IsChange(d, j, k)
    ensures OneDataBit(d) && AddressOf(d) as int == j && (0x01 << BitOf(d)) == Bit(k)
  {
    hide HasBit, InLine, IsChange, OneDataBit, AddressOf, HighNibble, Bit;
    ChangeBits(d, j, k);
    OneDataBitMeansPairs(d);
    AddressDecodes(d, j);
    BitNumberOf(d.c2, k);
  }

  lemma AddressDecodes(d: Code, j: nat)
    requires j < BLOCK_SIZE
    requires forall i :: 0 <= i < 4 ==> HasBit(d.c0, 2 * i + 1) == InLine(j, 4 + i)
    requires forall i :: 0 <= i < 4 ==> HasBit(d.c1, 2 * i + 1) == InLine(j, i)
    ensures AddressOf(d) as int == j
  {
    hide HasBit, InLine, AddressOf;
    forall i | 0 <= i < 8 ensures InLine(AddressOf(d) as int, i) == InLine(j, i) {
      AddressBit(d, i % 4);
      ByteBit(AddressOf(d), i);
      if i >= 4 {
        assert HasBit(d.c0, 2 * (i - 4) + 1) == InLine(j, 4 + (i - 4));
      }
    }
    assert Words.Pow2(8) == BLOCK_SIZE;
    SameLines(AddressOf(d) as int, j, 8);
    Words.BitsDiffer(AddressOf(d) as int, j, 8);
  }

  lemma {:induction false} SameLines(a: nat, b: nat, k: nat)
    requires forall i :: 0 <= i < k ==> InLine(a, i) == InLine(b, i)
    ensures Words.Bits(a, k) == Words.Bits(b, k)
  {
    if k > 0 {
      assert InLine(a, 0) == InLine(b, 0);
      forall i | 0 <= i < k - 1 ensures InLine(a / 2, i) == InLine(b / 2, i) {
        assert InLine(a, i + 1) == InLine(b, i + 1);
      }
      SameLines(a / 2, b / 2, k - 1);
    }
  }

  lemma ByteBit(x: bv8, i: nat)
    requires i < 8
    ensures HasBit(x, i) == InLine(x as int, i)
  {
    hide HasBit, InLine;
    BackAndForth(x);
    PositionBit(x as int, i);
  }

  lemma BackAndForth(x: bv8)
    ensures (x as int) as bv8 == x
  {
  }

  lemma ChangeBits(d: Code, j: nat, k: nat)
    requires j < BLOCK_SIZE && k < 8 && IsChange(d, j, k)
    ensures AllPairsDiffer(d)
    ensures forall i :: 0 <= i < 4 ==> HasBit(d.c0, 2 * i + 1) == InLine(j, 4 + i)
    ensures forall i :: 0 <= i < 4 ==> HasBit(d.c1, 2 * i + 1) == InLine(j, i)
    ensures HasBit(d.c2, 7) == (k / 4 == 1) && HasBit(d.c2, 5) == (k / 2 % 2 == 1) && HasBit(d.c2, 3) == (k % 2 == 1)
  {
    LineChangeBits(d.c0, j, 4);
    LineChangeBits(d.c1, j, 0);
    ColumnChangeBits(d.c2, k);
  }

  lemma LineChangeBits(c: bv8, j: nat, i: nat)
    requires i <= 4 && Bits(c) == LineChange(j, i)
    ensures forall m :: 0 <= m < 4 ==> HasBit(c, 2 * m + 1) == InLine(j, i + m)
    ensures forall m :: 0 <= m < 4 ==> HasBit(c, 2 * m) == !InLine(j, i + m)
  {
    hide HasBit, InLine;
    forall m | 0 <= m < 4
      ensures HasBit(c, 2 * m + 1) == InLine(j, i + m)
      ensures HasBit(c, 2 * m) == !InLine(j, i + m)
    {
      assert Bits(c)[2 * m + 1] == LineChange(j, i)[2 * m + 1] && Bits(c)[2 * m] == LineChange(j, i)[2 * m];
    }
  }

  lemma ColumnChangeBits(c: bv8, k: nat)
    requires k < 8 && Bits(c) == ColumnChange(k)
    ensures HasBit(c, 7) == (k / 4 == 1) && HasBit(c, 5) == (k / 2 % 2 == 1) && HasBit(c, 3) == (k % 2 == 1)
    ensures forall i :: 1 <= i < 4 ==> HasBit(c, 2 * i + 1) != HasBit(c, 2 * i)
  {
    hide HasBit;
    assert Bits(c)[7] == ColumnChange(k)[7] && Bits(c)[5] == ColumnChange(k)[5] && Bits(c)[3] == ColumnChange(k)[3];
    forall i | 1 <= i < 4 ensures HasBit(c, 2 * i + 1) != HasBit(c, 2 * i) {
      assert Bits(c)[2 * i + 1] == ColumnChange(k)[2 * i + 1] && Bits(c)[2 * i] == ColumnChange(k)[2 * i];
    }
  }

  // ---------------------------------------------------------------- counting the ones of a change

  function Count(b: bool): nat {
    if b then 1 else 0
  }

  function CountTrue(s: seq<bool>): nat {
    if s == [] then 0 else Count(s[0]) + CountTrue(s[1..])
  }

  lemma HalfBit(x: bv8, p: nat)
    requires p < 8
    ensures HasBit(x >> 1, p) == (p < 7 && HasBit(x, p + 1))
  {
  }

  lemma OnesStep(x: bv8)
    ensures Ones(x) == Count(HasBit(x, 0)) + Ones(x >> 1)
  {
    assert HasBit(x, 0) == (x & 1 != 0);
    if x == 0 {
      assert x >> 1 == 0 && Ones(0) == 0;
    } else {
      assert Ones(x) == (if x & 1 != 0 then 1 else 0) + Ones(x >> 1);
    }
  }

  lemma {:induction false} OnesAreBits(x: bv8, n: nat)
    requires n <= 8 && forall p :: n <= p < 8 ==> !HasBit(x, p)
    ensures Ones(x) == CountTrue(Bits(x)[..n])
  {
    if n == 0 {
      assert Bits(x) == Bits(0);
      BitsInjective(x, 0);
    } else {
      var half := x >> 1;
      forall p | 0 <= p < 8 ensures HasBit(half, p) == (p < 7 && HasBit(x, p + 1)) {
        HalfBit(x, p);
      }
      OnesStep(x);
      OnesAreBits(half, n - 1);
      hide Bit, HasBit;
      forall p | 0 <= p < n - 1 ensures Bits(x)[..n][1..][p] == Bits(half)[..n - 1][p] {
        assert Bits(x)[p + 1] == Bits(half)[p];
      }
      assert Bits(x)[..n][1..] == Bits(half)[..n - 1];
      assert Bits(x)[0] == HasBit(x, 0);
    }
  }

  lemma CountStep(s: seq<bool>, n: nat)
    requires n < |s|
    ensures CountTrue(s[n..]) == Count(s[n]) + CountTrue(s[n + 1..])
    ensures CountTrue([]) == 0
  {
    assert s[n..][1..] == s[n + 1..];
  }

  lemma CountOfByte(s: seq<bool>)
    requires |s| == 8
    ensures CountTrue(s) == Count(s[0]) + Count(s[1]) + Count(s[2]) + Count(s[3]) + Count(s[4]) + Count(s[5]) +
                            Count(s[6]) + Count(s[7])
  {
    CountStep(s, 0); CountStep(s, 1); CountStep(s, 2); CountStep(s, 3);
    CountStep(s, 4); CountStep(s, 5); CountStep(s, 6); CountStep(s, 7);
    hide CountTrue;
    assert s[0..] == s && s[8..] == [];
  }

  lemma OnesOfBits(x: bv8)
    ensures Ones(x) == Count(HasBit(x, 0)) + Count(HasBit(x, 1)) + Count(HasBit(x, 2)) + Count(HasBit(x, 3)) +
                       Count(HasBit(x, 4)) + Count(HasBit(x, 5)) + Count(HasBit(x, 6)) + Count(HasBit(x, 7))
  {
    hide HasBit, Ones;
    OnesAreBits(x, 8);
    assert Bits(x)[..8] == Bits(x);
    CountOfByte(Bits(x));
  }

  function Weight(d: Code): nat {
    Ones(d.c0) + Ones(d.c1) + Ones(d.c2)
  }

  /** Bits of each pair are equal, and the two unused bits are clear: what two flipped data bits leave. */
  ghost predicate AllPairsEqual(d: Code) {
    && (forall i :: 0 <= i < 4 ==> HasBit(d.c0, 2 * i + 1) == HasBit(d.c0, 2 * i))
    && (forall i :: 0 <= i < 4 ==> HasBit(d.c1, 2 * i + 1) == HasBit(d.c1, 2 * i))
    && (forall i :: 0 <= i < 4 ==> HasBit(d.c2, 2 * i + 1) == HasBit(d.c2, 2 * i))
  }

  lemma EqualPairsOnes(c: bv8)
    requires forall i :: 0 <= i < 4 ==> HasBit(c, 2 * i + 1) == HasBit(c, 2 * i)
    ensures Ones(c) % 2 == 0
  {
    hide HasBit, Ones;
    OnesOfBits(c);
    assert HasBit(c, 2 * 0 + 1) == HasBit(c, 2 * 0) && HasBit(c, 2 * 1 + 1) == HasBit(c, 2 * 1);
    assert HasBit(c, 2 * 2 + 1) == HasBit(c, 2 * 2) && HasBit(c, 2 * 3 + 1) == HasBit(c, 2 * 3);
  }

  lemma DifferentPairsOnes(c: bv8, from: nat)
    requires from <= 1 && forall i :: from <= i < 4 ==> HasBit(c, 2 * i + 1) != HasBit(c, 2 * i)
    ensures Ones(c) >= 4 - from
  {
    hide HasBit, Ones;
    OnesOfBits(c);
    assert HasBit(c, 2 * 1 + 1) != HasBit(c, 2 * 1) && HasBit(c, 2 * 2 + 1) != HasBit(c, 2 * 2);
    assert HasBit(c, 2 * 3 + 1) != HasBit(c, 2 * 3);
    if from == 0 {
      assert HasBit(c, 2 * 0 + 1) != HasBit(c, 2 * 0);
    }
  }

  // ---------------------------------------------------------------- exclusive or of codes

  lemma XorTwice(x: bv8, y: bv8)
    ensures XorByte(XorByte(x, y), y) == x
    ensures XorByte(x, XorByte(x, y)) == y
  {
  }

  lemma XorBetween(x: bv8, y: bv8, z: bv8)
    ensures XorByte(x, z) == XorByte(XorByte(x, y), XorByte(y, z))
  {
  }

  lemma XorMoves(x: bv8, y: bv8, z: bv8)
    ensures XorByte(x, XorByte(y, z)) == XorByte(XorByte(x, y), z)
  {
  }

  lemma XorSelf(x: bv8, y: bv8)
    ensures XorByte(x, y) == 0 <==> x == y
  {
  }

  lemma CodesXorTwice(x: Code, y: Code)
    ensures Xor(x, Xor(x, y)) == y
  {
    XorTwice(x.c0, y.c0);
    XorTwice(x.c1, y.c1);
    XorTwice(x.c2, y.c2);
  }

  lemma CodesXorMoves(x: Code, y: Code, z: Code)
    ensures Xor(x, Xor(y, z)) == Xor(Xor(x, y), z)
  {
    XorMoves(x.c0, y.c0, z.c0);
    XorMoves(x.c1, y.c1, z.c1);
    XorMoves(x.c2, y.c2, z.c2);
  }

  lemma CodesXorBetween(x: Code, y: Code, z: Code)
    ensures Xor(x, z) == Xor(Xor(x, y), Xor(y, z))
  {
    XorBetween(x.c0, y.c0, z.c0);
    XorBetween(x.c1, y.c1, z.c1);
    XorBetween(x.c2, y.c2, z.c2);
  }

  lemma CodesXorSelf(x: Code, y: Code)
    ensures Xor(x, y) == Code(0, 0, 0) <==> x == y
  {
    XorSelf(x.c0, y.c0);
    XorSelf(x.c1, y.c1);
    XorSelf(x.c2, y.c2);
  }

  lemma OnesOfBit(k: nat)
    requires k < 8
    ensures Ones(Bit(k)) == 1
  {
    hide HasBit, Bit, XorByte;
    OnesOfBits(Bit(k));
    BitOfBit(k, 0); BitOfBit(k, 1); BitOfBit(k, 2); BitOfBit(k, 3);
    BitOfBit(k, 4); BitOfBit(k, 5); BitOfBit(k, 6); BitOfBit(k, 7);
  }

  lemma OnesOfTwoBits(k: nat, l: nat)
    requires k < 8 && l < 8 && k != l
    ensures Ones(XorByte(Bit(k), Bit(l))) == 2
  {
    hide HasBit, Bit, XorByte;
    var x := XorByte(Bit(k), Bit(l));
    OnesOfBits(x);
    ToggledBit(Bit(k), l, 0); ToggledBit(Bit(k), l, 1); ToggledBit(Bit(k), l, 2); ToggledBit(Bit(k), l, 3);
    ToggledBit(Bit(k), l, 4); ToggledBit(Bit(k), l, 5); ToggledBit(Bit(k), l, 6); ToggledBit(Bit(k), l, 7);
    BitOfBit(k, 0); BitOfBit(k, 1); BitOfBit(k, 2); BitOfBit(k, 3);
    BitOfBit(k, 4); BitOfBit(k, 5); BitOfBit(k, 6); BitOfBit(k, 7);
  }

  /** The change of a data bit has many ones, so neither few ones nor a broken pair is taken for it. */
  lemma OneDataBitIsHeavy(d: Code)
    ensures OneDataBit(d) ==> Weight(d) >= 11
  {
    OneDataBitMeansPairs(d);
    if OneDataBit(d) {
      DifferentPairsOnes(d.c0, 0);
      DifferentPairsOnes(d.c1, 0);
      DifferentPairsOnes(d.c2, 1);
    }
  }

  // ---------------------------------------------------------------- the theorems

  function Intact(block: seq<bv8>): (s: Stored)
    requires |block| == BLOCK_SIZE
    ensures |s.block| == BLOCK_SIZE
  {
    Stored(block, CodeOf(block))
  }

  lemma NoFlipNoChange(block: seq<bv8>)
    requires |block| == BLOCK_SIZE
    ensures Read(Intact(block)) == Correction(0, block, CodeOf(block))
  {
    CodesXorSelf(CodeOf(block), CodeOf(block));
  }

  /** A flipped bit of the block is put right; a flipped bit of the code leaves the block and mends the code. */
  lemma SingleFlipRepaired(block: seq<bv8>, f: Flip)
    requires |block| == BLOCK_SIZE && f.Valid()
    ensures Read(Disturb(Intact(block), f)) == Correction(if f.DataBit? then 1 else 2, block, CodeOf(block))
  {
    hide OneDataBit, AddressOf, BitOf, FlipAddressed, XorByte, Bit, CodeOf, IsChange, Toggle, HasBit;
    match f
    case DataBit(j, k) =>
      var flipped := Toggle(block, j, k);
      var d := Xor(CodeOf(flipped), CodeOf(block));
      CodeOfToggle(block, j, k);
      ChangeDecodes(d, j, k);
      OneDataBitIsHeavy(d);
      ToggledBack(block, d, j, k);
    case CodeBit(b, k) =>
      var d := OneHot(b, k);
      CodesXorTwice(CodeOf(block), d);
      OnesOfBit(k);
      OneDataBitIsHeavy(d);
  }

  lemma ToggledBack(block: seq<bv8>, d: Code, j: nat, k: nat)
    requires |block| == BLOCK_SIZE && j < BLOCK_SIZE && k < 8
    requires AddressOf(d) as int == j && (0x01 << BitOf(d)) == Bit(k)
    ensures FlipAddressed(d, Toggle(block, j, k)) == block
  {
    hide AddressOf, BitOf, XorByte, Bit;
    XorTwice(block[j], Bit(k));
  }

  /** Two flipped bits are reported and nothing is touched. The exception is a flipped data bit together with one
      of the two constant code bits: there the block is still put right. */
  lemma DoubleFlipDetected(block: seq<bv8>, f: Flip, g: Flip)
    requires |block| == BLOCK_SIZE && f.Valid() && g.Valid() && f != g
    ensures var s := Disturb(Disturb(Intact(block), f), g);
            if (f.DataBit? && !g.Significant()) || (g.DataBit? && !f.Significant())
            then Read(s) == Correction(1, block, s.code)
            else Read(s) == Correction(-1, s.block, s.code)
  {
    match f
    case DataBit(j, k) =>
      match g {
        case DataBit(j', k') => TwoDataBits(block, j, k, j', k');
        case CodeBit(b', k') => DataAndCodeBit(block, j, k, b', k');
      }
    case CodeBit(b, k) =>
      match g {
        case DataBit(j', k') => DataAndCodeBit(block, j', k', b, k);
        case CodeBit(b', k') => TwoCodeBits(block, b, k, b', k');
      }
  }

  lemma TwoDataBits(block: seq<bv8>, j: nat, k: nat, j': nat, k': nat)
    requires |block| == BLOCK_SIZE && j < BLOCK_SIZE && k < 8 && j' < BLOCK_SIZE && k' < 8 && (j != j' || k != k')
    ensures var t := Toggle(Toggle(block, j, k), j', k');
            Correct(t, CodeOf(block), CodeOf(t)) == Correction(-1, t, CodeOf(block))
  {
    hide OneDataBit, AddressOf, BitOf, FlipAddressed, XorByte, Bit, CodeOf, IsChange, Toggle;
    var t1 := Toggle(block, j, k);
    var t2 := Toggle(t1, j', k');
    var e1, e2 := Xor(CodeOf(t1), CodeOf(block)), Xor(CodeOf(t2), CodeOf(t1));
    CodeOfToggle(block, j, k);
    CodeOfToggle(t1, j', k');
    CodesXorBetween(CodeOf(t2), CodeOf(t1), CodeOf(block));
    TwoChanges(e2, e1, j', k', j, k);
  }

  lemma TwoChanges(e: Code, e': Code, j: nat, k: nat, j': nat, k': nat)
    requires j < BLOCK_SIZE && k < 8 && j' < BLOCK_SIZE && k' < 8 && (j != j' || k != k')
    requires IsChange(e, j, k) && IsChange(e', j', k')
    ensures Xor(e, e') != Code(0, 0, 0) && !OneDataBit(Xor(e, e')) && Weight(Xor(e, e')) != 1
  {
    hide HasBit, XorByte, Ones, OneDataBit, AddressOf, BitOf, IsChange;
    ChangeDecodes(e, j, k);
    ChangeDecodes(e', j', k');
    CodesXorSelf(e, e');
    DistinctBits(k, k');
    var d := Xor(e, e');
    PairsOfXor(e, e', j, k, j', k');
    OneDataBitMeansPairs(d);
    EqualPairsOnes(d.c0);
    EqualPairsOnes(d.c1);
    EqualPairsOnes(d.c2);
    assert HasBit(d.c0, 2 * 0 + 1) == HasBit(d.c0, 2 * 0);
  }

  lemma DistinctBits(k: nat, l: nat)
    requires k < 8 && l < 8
    ensures Bit(k) == Bit(l) <==> k == l
  {
  }

  lemma PairsOfXor(e: Code, e': Code, j: nat, k: nat, j': nat, k': nat)
    requires j < BLOCK_SIZE && k < 8 && j' < BLOCK_SIZE && k' < 8
    requires IsChange(e, j, k) && IsChange(e', j', k')
    ensures AllPairsEqual(Xor(e, e'))
  {
    hide HasBit, XorByte, ColumnChange, LineChange;
    ChangeBits(e, j, k);
    ChangeBits(e', j', k');
    assert HasBit(e.c0, 2 * 0 + 1) != HasBit(e.c0, 2 * 0) && HasBit(e'.c0, 2 * 0 + 1) != HasBit(e'.c0, 2 * 0);
    assert HasBit(e.c1, 2 * 0 + 1) != HasBit(e.c1, 2 * 0) && HasBit(e'.c1, 2 * 0 + 1) != HasBit(e'.c1, 2 * 0);
    ConstantBitsClear(e.c2, k);
    ConstantBitsClear(e'.c2, k');
    PairsXor(e.c0, e'.c0);
    PairsXor(e.c1, e'.c1);
    PairsXor(e.c2, e'.c2);
  }

  lemma ConstantBitsClear(c: bv8, k: nat)
    requires k < 8 && Bits(c) == ColumnChange(k)
    ensures !HasBit(c, 0) && !HasBit(c, 1)
  {
    assert Bits(c)[0] == ColumnChange(k)[0] && Bits(c)[1] == ColumnChange(k)[1];
  }

  lemma PairsXor(x: bv8, y: bv8)
    requires forall i :: 1 <= i < 4 ==> HasBit(x, 2 * i + 1) != HasBit(x, 2 * i)
    requires forall i :: 1 <= i < 4 ==> HasBit(y, 2 * i + 1) != HasBit(y, 2 * i)
    requires (HasBit(x, 1) != HasBit(x, 0)) == (HasBit(y, 1) != HasBit(y, 0))
    ensures forall i :: 0 <= i < 4 ==> HasBit(XorByte(x, y), 2 * i + 1) == HasBit(XorByte(x, y), 2 * i)
  {
    hide HasBit, XorByte;
    forall i | 0 <= i < 4 ensures HasBit(XorByte(x, y), 2 * i + 1) == HasBit(XorByte(x, y), 2 * i) {
      BitOfXor(x, y, 2 * i + 1);
      BitOfXor(x, y, 2 * i);
    }
  }

  lemma DataAndCodeBit(block: seq<bv8>, j: nat, k: nat, b: nat, l: nat)
    requires |block| == BLOCK_SIZE && j < BLOCK_SIZE && k < 8 && b < 3 && l < 8
    ensures var t := Toggle(block, j, k);
            var code := Xor(CodeOf(block), OneHot(b, l));
            Correct(t, code, CodeOf(t)) ==
            if b == 2 && l < 2 then Correction(1, block, code) else Correction(-1, t, code)
  {
    hide OneDataBit, AddressOf, BitOf, FlipAddressed, XorByte, Bit, CodeOf, IsChange, Toggle;
    var t := Toggle(block, j, k);
    var e := Xor(CodeOf(t), CodeOf(block));
    var d := Xor(e, OneHot(b, l));
    CodeOfToggle(block, j, k);
    ChangeDecodes(e, j, k);
    CodesXorMoves(CodeOf(t), CodeOf(block), OneHot(b, l));
    if b == 2 && l < 2 {
      ConstantBits(l);
      ConstantBitsIgnored(e, OneHot(b, l));
      OneDataBitIsHeavy(d);
      ToggledBack(block, d, j, k);
    } else {
      BrokenPair(e, b, l);
    }
  }

  lemma ConstantBits(l: nat)
    requires l < 2
    ensures Bit(l) == 1 || Bit(l) == 2
  {
  }

  lemma ConstantBitsIgnored(e: Code, h: Code)
    requires OneDataBit(e) && h.c0 == 0 && h.c1 == 0 && (h.c2 == 1 || h.c2 == 2)
    ensures OneDataBit(Xor(e, h)) && AddressOf(Xor(e, h)) == AddressOf(e) && BitOf(Xor(e, h)) == BitOf(e)
  {
    assert XorByte(e.c2, h.c2) == e.c2 ^ h.c2;
    hide HighNibble, XorByte;
    XorZero(e.c0);
    XorZero(e.c1);
    ConstantBitsOfByte(e.c2, h.c2, XorByte(e.c2, h.c2));
  }

  lemma XorZero(x: bv8)
    ensures XorByte(x, 0) == x
  {
  }

  lemma ConstantBitsOfByte(c: bv8, h: bv8, c': bv8)
    requires (h == 1 || h == 2) && c' == c ^ h
    ensures (c' ^ (c' >> 1)) & 0x54 == (c ^ (c >> 1)) & 0x54
    ensures HighNibble(c') >> 5 == HighNibble(c) >> 5
  {
    if h == 1 {
    } else {
    }
  }

  lemma BrokenPair(e: Code, b: nat, l: nat)
    requires OneDataBit(e) && b < 3 && l < 8 && !(b == 2 && l < 2)
    ensures var d := Xor(e, OneHot(b, l));
            d != Code(0, 0, 0) && !OneDataBit(d) && Weight(d) != 1
  {
    hide OneDataBit, HasBit, XorByte, Bit, Ones;
    var d := Xor(e, OneHot(b, l));
    OneDataBitMeansPairs(e);
    OneDataBitMeansPairs(d);
    var x := if b == 0 then e.c0 else if b == 1 then e.c1 else e.c2;
    var i := l / 2;
    ToggledBit(x, l, 2 * i);
    ToggledBit(x, l, 2 * i + 1);
    DifferentPairsOnes(if b == 0 then e.c1 else e.c0, 0);
    XorZero(e.c0);
    XorZero(e.c1);
    assert if b == 0 then d.c1 == e.c1 else d.c0 == e.c0;
  }

  lemma TwoCodeBits(block: seq<bv8>, b: nat, k: nat, b': nat, k': nat)
    requires |block| == BLOCK_SIZE && b < 3 && b' < 3 && k < 8 && k' < 8 && (b != b' || k != k')
    ensures var code := Xor(Xor(CodeOf(block), OneHot(b, k)), OneHot(b', k'));
            Correct(block, code, CodeOf(block)) == Correction(-1, block, code)
  {
    hide OneDataBit, AddressOf, BitOf, FlipAddressed, XorByte, Bit, CodeOf;
    var d := Xor(OneHot(b, k), OneHot(b', k'));
    CodesXorMoves(CodeOf(block), OneHot(b, k), OneHot(b', k'));
    CodesXorTwice(CodeOf(block), d);
    OnesOfBit(k);
    OnesOfBit(k');
    if b == b' {
      OnesOfTwoBits(k, k');
    }
    TwoHot(b, k, b', k');
    OneDataBitIsHeavy(d);
  }

  lemma TwoHot(b: nat, k: nat, b': nat, k': nat)
    requires b < 3 && b' < 3 && k < 8 && k' < 8
    ensures Xor(OneHot(b, k), OneHot(b', k')) ==
            Code(TwoHotByte(b == 0, k, b' == 0, k'), TwoHotByte(b == 1, k, b' == 1, k'),
                 TwoHotByte(b == 2, k, b' == 2, k'))
  {
    TwoHotXor(b == 0, k, b' == 0, k');
    TwoHotXor(b == 1, k, b' == 1, k');
    TwoHotXor(b == 2, k, b' == 2, k');
  }

  lemma TwoHotXor(first: bool, k: nat, second: bool, k': nat)
    requires k < 8 && k' < 8
    ensures XorByte(if first then Bit(k) else 0, if second then Bit(k') else 0) == TwoHotByte(first, k, second, k')
  {
    if first {
    } else if second {
    }
  }

  function TwoHotByte(first: bool, k: nat, second: bool, k': nat): bv8
    requires k < 8 && k' < 8
  {
    if first && second then XorByte(Bit(k), Bit(k')) else if first then Bit(k) else if second then Bit(k') else 0
  }
}
