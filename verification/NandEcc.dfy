/** The software ECC of the NAND driver: three code bytes for each 256-byte block, which
    correct one flipped bit and detect two (u-boot-v1.2/common/cmd_nand.c). */
module NandEcc {

  const BLOCK_SIZE: nat := 256

  // ---------------------------------------------------------------- bits and the parity table

  // Pre-calculated column parity of every byte value, sixteen values a row.
  const PRECALC_TABLE: seq<seq<bv8>> := [
    [0x00, 0x55, 0x56, 0x03, 0x59, 0x0c, 0x0f, 0x5a, 0x5a, 0x0f, 0x0c, 0x59, 0x03, 0x56, 0x55, 0x00],
    [0x65, 0x30, 0x33, 0x66, 0x3c, 0x69, 0x6a, 0x3f, 0x3f, 0x6a, 0x69, 0x3c, 0x66, 0x33, 0x30, 0x65],
    [0x66, 0x33, 0x30, 0x65, 0x3f, 0x6a, 0x69, 0x3c, 0x3c, 0x69, 0x6a, 0x3f, 0x65, 0x30, 0x33, 0x66],
    [0x03, 0x56, 0x55, 0x00, 0x5a, 0x0f, 0x0c, 0x59, 0x59, 0x0c, 0x0f, 0x5a, 0x00, 0x55, 0x56, 0x03],
    [0x69, 0x3c, 0x3f, 0x6a, 0x30, 0x65, 0x66, 0x33, 0x33, 0x66, 0x65, 0x30, 0x6a, 0x3f, 0x3c, 0x69],
    [0x0c, 0x59, 0x5a, 0x0f, 0x55, 0x00, 0x03, 0x56, 0x56, 0x03, 0x00, 0x55, 0x0f, 0x5a, 0x59, 0x0c],
    [0x0f, 0x5a, 0x59, 0x0c, 0x56, 0x03, 0x00, 0x55, 0x55, 0x00, 0x03, 0x56, 0x0c, 0x59, 0x5a, 0x0f],
    [0x6a, 0x3f, 0x3c, 0x69, 0x33, 0x66, 0x65, 0x30, 0x30, 0x65, 0x66, 0x33, 0x69, 0x3c, 0x3f, 0x6a],
    [0x6a, 0x3f, 0x3c, 0x69, 0x33, 0x66, 0x65, 0x30, 0x30, 0x65, 0x66, 0x33, 0x69, 0x3c, 0x3f, 0x6a],
    [0x0f, 0x5a, 0x59, 0x0c, 0x56, 0x03, 0x00, 0x55, 0x55, 0x00, 0x03, 0x56, 0x0c, 0x59, 0x5a, 0x0f],
    [0x0c, 0x59, 0x5a, 0x0f, 0x55, 0x00, 0x03, 0x56, 0x56, 0x03, 0x00, 0x55, 0x0f, 0x5a, 0x59, 0x0c],
    [0x69, 0x3c, 0x3f, 0x6a, 0x30, 0x65, 0x66, 0x33, 0x33, 0x66, 0x65, 0x30, 0x6a, 0x3f, 0x3c, 0x69],
    [0x03, 0x56, 0x55, 0x00, 0x5a, 0x0f, 0x0c, 0x59, 0x59, 0x0c, 0x0f, 0x5a, 0x00, 0x55, 0x56, 0x03],
    [0x66, 0x33, 0x30, 0x65, 0x3f, 0x6a, 0x69, 0x3c, 0x3c, 0x69, 0x6a, 0x3f, 0x65, 0x30, 0x33, 0x66],
    [0x65, 0x30, 0x33, 0x66, 0x3c, 0x69, 0x6a, 0x3f, 0x3f, 0x6a, 0x69, 0x3c, 0x66, 0x33, 0x30, 0x65],
    [0x00, 0x55, 0x56, 0x03, 0x59, 0x0c, 0x0f, 0x5a, 0x5a, 0x0f, 0x0c, 0x59, 0x03, 0x56, 0x55, 0x00]
  ]

  function Precalc(x: bv8): bv8 {
    PRECALC_TABLE[(x >> 4) as int][(x & 0x0f) as int]
  }

  /** The byte whose only set bit is bit `k`. */
  function Bit(k: nat): bv8
    requires k < 8
  {
    match k
    case 0 => 0x01 case 1 => 0x02 case 2 => 0x04 case 3 => 0x08
    case 4 => 0x10 case 5 => 0x20 case 6 => 0x40 case _ => 0x80
  }

  predicate HasBit(x: bv8, k: nat)
    requires k < 8
  {
    x & Bit(k) != 0
  }

  /** The bits of a byte, bit 0 first. */
  function Bits(x: bv8): (b: seq<bool>)
    ensures |b| == 8
  {
    seq(8, k requires 0 <= k < 8 => HasBit(x, k))
  }

  /** The byte with the given bits. */
  function FromBits(b: seq<bool>): (x: bv8)
    requires |b| <= 8
    ensures forall k :: 0 <= k < 8 ==> HasBit(x, k) == (k < |b| && b[k])
  {
    if b == [] then 0
    else
      var n := |b| - 1;
      SetBit(FromBits(b[..n]), n, b[n])
  }

  function SetBit(x: bv8, n: nat, v: bool): (r: bv8)
    requires n < 8 && !HasBit(x, n)
    ensures forall k :: 0 <= k < 8 ==> HasBit(r, k) == if k == n then v else HasBit(x, k)
  {
    if v then x | Bit(n) else x
  }

  lemma BitsInjective(x: bv8, y: bv8)
    requires Bits(x) == Bits(y)
    ensures x == y
  {
    SameBit(x, y, 0); SameBit(x, y, 1); SameBit(x, y, 2); SameBit(x, y, 3);
    SameBit(x, y, 4); SameBit(x, y, 5); SameBit(x, y, 6); SameBit(x, y, 7);
  }

  lemma SameBit(x: bv8, y: bv8, k: nat)
    requires Bits(x) == Bits(y) && k < 8
    ensures x & Bit(k) != 0 <==> y & Bit(k) != 0
  {
    assert Bits(x)[k] == Bits(y)[k];
  }

  /** Bitwise exclusive or. */
  function XorBits(a: seq<bool>, b: seq<bool>): (r: seq<bool>)
    requires |a| == |b|
    ensures |r| == |a|
  {
    seq(|a|, k requires 0 <= k < |a| => a[k] != b[k])
  }

  function XorByte(x: bv8, y: bv8): bv8 {
    x ^ y
  }

  lemma BitsOfXor(x: bv8, y: bv8)
    ensures Bits(XorByte(x, y)) == XorBits(Bits(x), Bits(y))
  {
    hide HasBit, XorByte;
    forall k | 0 <= k < 8 ensures Bits(XorByte(x, y))[k] == (Bits(x)[k] != Bits(y)[k]) {
      BitOfXor(x, y, k);
    }
  }

  lemma BitOfXor(x: bv8, y: bv8, k: nat)
    requires k < 8
    ensures HasBit(XorByte(x, y), k) == (HasBit(x, k) != HasBit(y, k))
  {
    hide Bit;
    XorMask(x, y, k);
  }

  lemma XorMask(x: bv8, y: bv8, k: nat)
    requires k < 8
    ensures (x ^ y) & Bit(k) != 0 <==> (x & Bit(k) != 0) != (y & Bit(k) != 0)
  {
  }

  /** Whether an odd number of the values are true. */
  predicate XorAll(s: seq<bool>) {
    s != [] && XorAll(s[..|s| - 1]) != s[|s| - 1]
  }

  lemma XorAllStep(s: seq<bool>, n: nat)
    requires n < |s|
    ensures XorAll(s[..n + 1]) == (XorAll(s[..n]) != s[n])
  {
    assert s[..n + 1][..n] == s[..n];
  }

  lemma XorAllOfByte(s: seq<bool>)
    requires |s| == 8
    ensures XorAll(s) <==> s[0] != (s[1] != (s[2] != (s[3] != (s[4] != (s[5] != (s[6] != s[7]))))))
  {
    assert s[..8] == s;
    XorAllStep(s, 0); XorAllStep(s, 1); XorAllStep(s, 2); XorAllStep(s, 3);
    XorAllStep(s, 4); XorAllStep(s, 5); XorAllStep(s, 6); XorAllStep(s, 7);
  }

  lemma {:induction false} XorAllFlip(s: seq<bool>, j: nat)
    requires j < |s|
    ensures XorAll(s[j := !s[j]]) == !XorAll(s)
  {
    var n := |s| - 1;
    if j == n {
      assert s[j := !s[j]][..n] == s[..n];
    } else {
      assert s[j := !s[j]][..n] == s[..n][j := !s[j]];
      XorAllFlip(s[..n], j);
    }
  }

  /** The bit positions of a byte that CP`k` covers; 6 stands for the whole byte. */
  predicate InColumn(k: nat, p: nat) {
    match k
    case 0 => p % 2 == 0     case 1 => p % 2 == 1
    case 2 => p / 2 % 2 == 0 case 3 => p / 2 % 2 == 1
    case 4 => p / 4 == 0     case 5 => p / 4 == 1
    case 6 => true           case _ => false
  }

  function Column(x: bv8, k: nat): (b: seq<bool>)
    ensures |b| == 8
  {
    seq(8, p requires 0 <= p < 8 => Bits(x)[p] && InColumn(k, p))
  }

  /** The bits that `InColumn` selects, as a byte. */
  function Mask(k: nat): bv8
    requires k < 8
  {
    match k
    case 0 => 0x55 case 1 => 0xaa
    case 2 => 0x33 case 3 => 0xcc
    case 4 => 0x0f case 5 => 0xf0
    case 6 => 0xff case _ => 0x00
  }

  lemma MaskSelects(x: bv8, k: nat)
    requires k < 8
    ensures Bits(x & Mask(k)) == Column(x, k)
  {
    hide HasBit, Mask, InColumn, Bit;
    forall p | 0 <= p < 8 ensures Bits(x & Mask(k))[p] == Column(x, k)[p] {
      MaskBit(k, p);
      BitOfAnd(x, Mask(k), p);
    }
  }

  lemma MaskBit(k: nat, p: nat)
    requires k < 8 && p < 8
    ensures HasBit(Mask(k), p) == InColumn(k, p)
  {
  }

  lemma BitOfAnd(x: bv8, y: bv8, p: nat)
    requires p < 8
    ensures HasBit(x & y, p) == (HasBit(x, p) && HasBit(y, p))
  {
  }

  predicate OddChain(x: bv8) {
    (x & 0x01 != 0) != ((x & 0x02 != 0) != ((x & 0x04 != 0) != ((x & 0x08 != 0) !=
                                                                ((x & 0x10 != 0) !=
                                                                 ((x & 0x20 != 0) !=
                                                                  ((x & 0x40 != 0) != (x & 0x80 != 0)))))))
  }

  lemma OddUnrolled(x: bv8)
    ensures XorAll(Bits(x)) == OddChain(x)
  {
    var b := Bits(x);
    XorAllOfByte(b);
    assert b[0] == HasBit(x, 0) && b[1] == HasBit(x, 1) && b[2] == HasBit(x, 2) && b[3] == HasBit(x, 3);
    assert b[4] == HasBit(x, 4) && b[5] == HasBit(x, 5) && b[6] == HasBit(x, 6) && b[7] == HasBit(x, 7);
  }

  /** Every entry of the table holds the column parities of its byte. */
  lemma PrecalcIsParity(x: bv8)
    ensures forall k :: 0 <= k < 8 ==> Bits(Precalc(x))[k] == XorAll(Column(x, k))
  {
    PrecalcIsPacked(x);
    forall k | 0 <= k < 8 ensures Bits(Precalc(x))[k] == XorAll(Column(x, k)) {
      MaskSelects(x, k);
      OddUnrolled(x & Mask(k));
      PackedBit(x, k);
    }
  }

  function Packed(x: bv8): bv8 {
    (if OddChain(x & 0x55) then 0x01 else 0) | (if OddChain(x & 0xaa) then 0x02 else 0) |
    (if OddChain(x & 0x33) then 0x04 else 0) | (if OddChain(x & 0xcc) then 0x08 else 0) |
    (if OddChain(x & 0x0f) then 0x10 else 0) | (if OddChain(x & 0xf0) then 0x20 else 0) |
    (if OddChain(x & 0xff) then 0x40 else 0)
  }

  lemma PrecalcIsPacked(x: bv8)
    ensures Precalc(x) == Packed(x)
  {
  }

  lemma PackedBit(x: bv8, k: nat)
    requires k < 8
    ensures HasBit(Packed(x), k) <==> OddChain(x & Mask(k))
  {
  }

  // ---------------------------------------------------------------- the code of a block

  /** Bit `i` of a byte's position in the block. */
  predicate InLine(n: nat, i: nat) {
    if i == 0 then n % 2 == 1 else InLine(n / 2, i - 1)
  }

  lemma PositionBits(n: nat)
    requires n < BLOCK_SIZE
    ensures forall i :: 0 <= i < 8 ==> Bits(n as bv8)[i] == InLine(n, i)
  {
    forall i | 0 <= i < 8 ensures Bits(n as bv8)[i] == InLine(n, i) {
      PositionBit(n, i);
    }
  }

  lemma PositionBit(n: nat, i: nat)
    requires n < BLOCK_SIZE && i < 8
    ensures HasBit(n as bv8, i) == InLine(n, i)
  {
    hide HasBit;
    DividedBit(n, i);
    LineBit(n, i);
  }

  /** Bit `i` of `n` by division. */
  predicate Divided(n: nat, i: nat) {
    match i
    case 0 => n % 2 == 1      case 1 => n / 2 % 2 == 1
    case 2 => n / 4 % 2 == 1  case 3 => n / 8 % 2 == 1
    case 4 => n / 16 % 2 == 1 case 5 => n / 32 % 2 == 1
    case 6 => n / 64 % 2 == 1 case _ => n / 128 % 2 == 1
  }

  lemma {:induction false} LineBit(n: nat, i: nat)
    requires i < 8
    ensures InLine(n, i) == Divided(n, i)
  {
    if i > 0 {
      LineBit(n / 2, i - 1);
      DividedHalf(n, i);
    }
  }

  lemma DividedHalf(n: nat, i: nat)
    requires 0 < i < 8
    ensures Divided(n / 2, i - 1) == Divided(n, i)
  {
    Halved(n);
  }

  lemma Halved(n: nat)
    ensures n / 2 / 2 == n / 4 && n / 2 / 4 == n / 8 && n / 2 / 8 == n / 16
    ensures n / 2 / 16 == n / 32 && n / 2 / 32 == n / 64 && n / 2 / 64 == n / 128
  {
  }

  lemma DividedBit(n: nat, i: nat)
    requires n < BLOCK_SIZE && i < 8
    ensures HasBit(n as bv8, i) == Divided(n, i)
  {
  }

  /** Which bytes of the block have odd parity in column `k`. */
  function ColumnCover(dat: seq<bv8>, k: nat): (r: seq<bool>)
    ensures |r| == |dat|
  {
    seq(|dat|, n requires 0 <= n < |dat| => XorAll(Column(dat[n], k)))
  }

  /** Which values are true among those whose position has bit `i` equal to `v`. */
  function Select(cover: seq<bool>, i: nat, v: bool): (r: seq<bool>)
    ensures |r| == |cover|
  {
    seq(|cover|, n requires 0 <= n < |cover| => cover[n] && InLine(n, i) == v)
  }

  /** Which bytes have odd parity among those whose position has bit `i` equal to `v`. */
  function LineCover(dat: seq<bv8>, i: nat, v: bool): (r: seq<bool>)
    ensures |r| == |dat|
  {
    Select(ColumnCover(dat, 6), i, v)
  }

  /** LP(2i+1), or LP(2i) when `v` is false. */
  predicate LineParity(dat: seq<bv8>, i: nat, v: bool) {
    XorAll(LineCover(dat, i, v))
  }

  /** CP`k`, or the parity of the whole block for 6. */
  predicate ColumnParity(dat: seq<bv8>, k: nat) {
    XorAll(ColumnCover(dat, k))
  }

  /** The two line parities of a position bit add up to the parity of the whole block. */
  lemma {:induction false} LinePairs(dat: seq<bv8>, i: nat, n: nat)
    requires n <= |dat| <= BLOCK_SIZE && i < 8
    ensures XorAll(LineCover(dat, i, false)[..n]) ==
            (XorAll(ColumnCover(dat, 6)[..n]) != XorAll(LineCover(dat, i, true)[..n]))
  {
    if n != 0 {
      LinePairs(dat, i, n - 1);
      XorAllStep(LineCover(dat, i, false), n - 1);
      XorAllStep(LineCover(dat, i, true), n - 1);
      XorAllStep(ColumnCover(dat, 6), n - 1);
    }
  }

  /** The three code bytes. */
  datatype Code = Code(c0: bv8, c1: bv8, c2: bv8)

  function Xor(x: Code, y: Code): Code {
    Code(XorByte(x.c0, y.c0), XorByte(x.c1, y.c1), XorByte(x.c2, y.c2))
  }

  /** The line-parity bits from LP(2i): a clear and a set one for each of four position bits. */
  function LineBits(dat: seq<bv8>, i: nat): (b: seq<bool>)
    requires |dat| <= BLOCK_SIZE && i <= 4
    ensures |b| == 8
  {
    seq(8, b requires 0 <= b < 8 => !LineParity(dat, i + b / 2, b % 2 == 1))
  }

  function ColumnBits(dat: seq<bv8>): (b: seq<bool>)
    ensures |b| == 8
  {
    seq(8, b requires 0 <= b < 8 => b < 2 || !ColumnParity(dat, b - 2))
  }

  /** The Hamming code of a block: LP15 to LP8, LP7 to LP0, and CP5 to CP0 with two unused bits, all inverted. */
  function CodeOf(dat: seq<bv8>): (c: Code)
    requires |dat| == BLOCK_SIZE
    ensures Bits(c.c0) == LineBits(dat, 4) && Bits(c.c1) == LineBits(dat, 0) && Bits(c.c2) == ColumnBits(dat)
  {
    Code(FromBits(LineBits(dat, 4)), FromBits(LineBits(dat, 0)), FromBits(ColumnBits(dat)))
  }

  /** The registers of the calculation, as bits, hold the parities of the first `n` bytes. */
  ghost predicate RegistersHold(dat: seq<bv8>, n: nat, r1: seq<bool>, r3: seq<bool>)
    requires n <= |dat| <= BLOCK_SIZE && |r1| == |r3| == 8
  {
    && (forall k :: 0 <= k < 8 ==> r1[k] == XorAll(ColumnCover(dat, k)[..n]))
    && (forall i :: 0 <= i < 8 ==> r3[i] == XorAll(LineCover(dat, i, true)[..n]))
  }

  lemma RegistersStart(dat: seq<bv8>)
    requires |dat| <= BLOCK_SIZE
    ensures RegistersHold(dat, 0, Bits(0), Bits(0))
  {
  }

  lemma ColumnStep(dat: seq<bv8>, n: nat, k: nat)
    requires n < |dat|
    ensures XorAll(ColumnCover(dat, k)[..n + 1]) == (XorAll(ColumnCover(dat, k)[..n]) != XorAll(Column(dat[n], k)))
  {
    XorAllStep(ColumnCover(dat, k), n);
  }

  lemma LineStep(dat: seq<bv8>, n: nat, i: nat)
    requires n < |dat| <= BLOCK_SIZE && i < 8
    ensures XorAll(LineCover(dat, i, true)[..n + 1]) ==
            (XorAll(LineCover(dat, i, true)[..n]) != (XorAll(Column(dat[n], 6)) && InLine(n, i)))
  {
    XorAllStep(LineCover(dat, i, true), n);
  }

  /** One more byte: its table entry goes into the first register, and if it is odd its position into the third. */
  lemma RegistersStep(dat: seq<bv8>, n: nat, r1: seq<bool>, r3: seq<bool>, idx: seq<bool>, pos: seq<bool>)
    requires n < |dat| <= BLOCK_SIZE && |r1| == |r3| == |idx| == 8 && RegistersHold(dat, n, r1, r3)
    requires forall k :: 0 <= k < 8 ==> idx[k] == XorAll(Column(dat[n], k))
    requires |pos| == 8 && forall i :: 0 <= i < 8 ==> pos[i] == InLine(n, i)
    ensures RegistersHold(dat, n + 1, XorBits(r1, idx), if idx[6] then XorBits(r3, pos) else r3)
  {
    forall k | 0 <= k < 8
      ensures XorAll(ColumnCover(dat, k)[..n + 1]) == (XorAll(ColumnCover(dat, k)[..n]) != idx[k])
    {
      ColumnStep(dat, n, k);
    }
    forall k | 0 <= k < 8
      ensures XorAll(LineCover(dat, k, true)[..n + 1]) == (XorAll(LineCover(dat, k, true)[..n]) != (idx[6] && pos[k]))
    {
      LineStep(dat, n, k);
    }
  }

  method LookUp(x: bv8) returns (idx: bv8)
    ensures forall k :: 0 <= k < 8 ==> Bits(idx)[k] == XorAll(Column(x, k))
  {
    idx := Precalc(x);
    PrecalcIsParity(x);
  }

  lemma SixthBit(x: bv8)
    ensures Bits(x)[6] <==> x & 0x40 != 0
  {
    assert Bits(x)[6] == HasBit(x, 6);
  }

  /** Takes byte `x` at position `n` into the registers, its parities read from the table. */
  method Accumulate(x: bv8, n: nat, reg1: bv8, reg3: bv8, ghost dat: seq<bv8>) returns (reg1': bv8, reg3': bv8)
    requires n < |dat| <= BLOCK_SIZE && x == dat[n] && RegistersHold(dat, n, Bits(reg1), Bits(reg3))
    ensures RegistersHold(dat, n + 1, Bits(reg1'), Bits(reg3'))
  {
    var idx := LookUp(x);
    PositionBits(n);
    hide Bits, Column, InLine, RegistersHold;
    RegistersStep(dat, n, Bits(reg1), Bits(reg3), Bits(idx), Bits(n as bv8));
    BitsOfXor(reg1, idx);
    BitsOfXor(reg3, n as bv8);
    SixthBit(idx);
    reg1' := reg1 ^ idx;
    if idx & 0x40 != 0 {
      reg3' := reg3 ^ (n as bv8);
    } else {
      reg3' := reg3;
    }
  }

  /** The high nibbles of `odd` and `even` interleaved, `odd` first. */
  function Interleave(odd: bv8, even: bv8): bv8 {
    (odd & 0x80) | ((even & 0x80) >> 1) | ((odd & 0x40) >> 1) | ((even & 0x40) >> 2) |
    ((odd & 0x20) >> 2) | ((even & 0x20) >> 3) | ((odd & 0x10) >> 3) | ((even & 0x10) >> 4)
  }

  lemma InterleavedBit(odd: bv8, even: bv8, b: nat)
    requires b < 8
    ensures HasBit(Interleave(odd, even), b) == HasBit(if b % 2 == 1 then odd else even, 4 + b / 2)
  {
  }

  lemma InterleavedLowBit(odd: bv8, even: bv8, b: nat)
    requires b < 8
    ensures HasBit(Interleave(odd << 4, even << 4), b) == HasBit(if b % 2 == 1 then odd else even, b / 2)
  {
  }

  lemma InvertedBit(x: bv8, b: nat)
    requires b < 8
    ensures HasBit(!x, b) == !HasBit(x, b)
  {
  }

  lemma ThirdByteBit(reg1: bv8, b: nat)
    requires b < 8
    ensures HasBit(((!reg1) << 2) | 0x03, b) == (b < 2 || !HasBit(reg1, b - 2))
  {
  }

  /** One code byte from four bits of each register, starting at bit `from`. */
  method TransNibble(reg2: bv8, reg3: bv8, from: bv8) returns (tmp: bv8)
    requires from == 0x80 || from == 0x08
    ensures tmp == if from == 0x80 then Interleave(reg3, reg2) else Interleave(reg3 << 4, reg2 << 4)
  {
    var a: bv8, b: bv8 := from, 0x80;
    ghost var all := if from == 0x80 then Interleave(reg3, reg2) else Interleave(reg3 << 4, reg2 << 4);
    tmp := 0;
    for i := 0 to 4
      invariant i == 0 ==> a == from && b == 0x80 && tmp == 0
      invariant i == 1 ==> a == from >> 1 && b == 0x20 && tmp == all & 0xc0
      invariant i == 2 ==> a == from >> 2 && b == 0x08 && tmp == all & 0xf0
      invariant i == 3 ==> a == from >> 3 && b == 0x02 && tmp == all & 0xfc
      invariant i == 4 ==> tmp == all
    {
      if reg3 & a != 0 {
        tmp := tmp | b;
      }
      b := b >> 1;
      if reg2 & a != 0 {
        tmp := tmp | b;
      }
      b := b >> 1;
      a := a >> 1;
    }
  }

  /** Creates the non-inverted line-parity bytes of the code. */
  method TransResult(reg2: bv8, reg3: bv8, ecc: array<bv8>, off: nat)
    requires off + 2 <= ecc.Length
    modifies ecc
    ensures ecc[off] == Interleave(reg3, reg2)
    ensures ecc[off + 1] == Interleave(reg3 << 4, reg2 << 4)
    ensures forall k :: 0 <= k < ecc.Length && k != off && k != off + 1 ==> ecc[k] == old(ecc[k])
  {
    var tmp1 := TransNibble(reg2, reg3, 0x80);
    var tmp2 := TransNibble(reg2, reg3, 0x08);
    ecc[off] := tmp1;
    ecc[off + 1] := tmp2;
  }

  lemma EvenLines(dat: seq<bv8>, reg1: bv8, reg2: bv8, reg3: bv8)
    requires |dat| == BLOCK_SIZE && RegistersHold(dat, BLOCK_SIZE, Bits(reg1), Bits(reg3))
    requires reg2 == if reg1 & 0x40 != 0 then !reg3 else reg3
    ensures forall i :: 0 <= i < 8 ==> HasBit(reg3, i) == LineParity(dat, i, true)
    ensures forall i :: 0 <= i < 8 ==> HasBit(reg2, i) == LineParity(dat, i, false)
    ensures forall i :: 0 <= i < 7 ==> HasBit(reg1, i) == ColumnParity(dat, i)
  {
    hide Column, InLine;
    forall i | 0 <= i < 8
      ensures HasBit(reg3, i) == LineParity(dat, i, true)
      ensures HasBit(reg1, i) == ColumnParity(dat, i)
    {
      assert Bits(reg3)[i] == HasBit(reg3, i) && Bits(reg1)[i] == HasBit(reg1, i);
      assert LineCover(dat, i, true)[..BLOCK_SIZE] == LineCover(dat, i, true);
      assert ColumnCover(dat, i)[..BLOCK_SIZE] == ColumnCover(dat, i);
    }
    forall i | 0 <= i < 8 ensures HasBit(reg2, i) == LineParity(dat, i, false) {
      LinePairs(dat, i, BLOCK_SIZE);
      assert LineCover(dat, i, true)[..BLOCK_SIZE] == LineCover(dat, i, true);
      assert LineCover(dat, i, false)[..BLOCK_SIZE] == LineCover(dat, i, false);
      assert ColumnCover(dat, 6)[..BLOCK_SIZE] == ColumnCover(dat, 6);
      InvertedBit(reg3, i);
      assert HasBit(reg1, 6) == ColumnParity(dat, 6);
    }
  }

  /** The code bytes are the inverted, interleaved registers. */
  lemma CodeOfRegisters(dat: seq<bv8>, reg1: bv8, reg2: bv8, reg3: bv8)
    requires |dat| == BLOCK_SIZE && RegistersHold(dat, BLOCK_SIZE, Bits(reg1), Bits(reg3))
    requires reg2 == if reg1 & 0x40 != 0 then !reg3 else reg3
    ensures CodeOf(dat) == InvertedCode(reg1, reg2, reg3)
  {
    EvenLines(dat, reg1, reg2, reg3);
    FirstByte(dat, reg2, reg3);
    SecondByte(dat, reg2, reg3);
    ThirdByte(dat, reg1);
    BitsInjective(CodeOf(dat).c0, !Interleave(reg3, reg2));
    BitsInjective(CodeOf(dat).c1, !Interleave(reg3 << 4, reg2 << 4));
    BitsInjective(CodeOf(dat).c2, ((!reg1) << 2) | 0x03);
  }

  lemma FirstByte(dat: seq<bv8>, reg2: bv8, reg3: bv8)
    requires |dat| == BLOCK_SIZE
    requires forall i :: 0 <= i < 8 ==> HasBit(reg3, i) == LineParity(dat, i, true)
    requires forall i :: 0 <= i < 8 ==> HasBit(reg2, i) == LineParity(dat, i, false)
    ensures Bits(!Interleave(reg3, reg2)) == LineBits(dat, 4)
  {
    hide HasBit, Interleave, LineParity;
    forall b | 0 <= b < 8 ensures Bits(!Interleave(reg3, reg2))[b] == LineBits(dat, 4)[b] {
      InvertedBit(Interleave(reg3, reg2), b);
      InterleavedBit(reg3, reg2, b);
    }
  }

  lemma SecondByte(dat: seq<bv8>, reg2: bv8, reg3: bv8)
    requires |dat| == BLOCK_SIZE
    requires forall i :: 0 <= i < 8 ==> HasBit(reg3, i) == LineParity(dat, i, true)
    requires forall i :: 0 <= i < 8 ==> HasBit(reg2, i) == LineParity(dat, i, false)
    ensures Bits(!Interleave(reg3 << 4, reg2 << 4)) == LineBits(dat, 0)
  {
    hide HasBit, Interleave, LineParity;
    forall b | 0 <= b < 8 ensures Bits(!Interleave(reg3 << 4, reg2 << 4))[b] == LineBits(dat, 0)[b] {
      InvertedBit(Interleave(reg3 << 4, reg2 << 4), b);
      InterleavedLowBit(reg3, reg2, b);
    }
  }

  lemma ThirdByte(dat: seq<bv8>, reg1: bv8)
    requires |dat| == BLOCK_SIZE
    requires forall i :: 0 <= i < 7 ==> HasBit(reg1, i) == ColumnParity(dat, i)
    ensures Bits(((!reg1) << 2) | 0x03) == ColumnBits(dat)
  {
    hide HasBit, ColumnParity;
    forall b | 0 <= b < 8 ensures Bits(((!reg1) << 2) | 0x03)[b] == ColumnBits(dat)[b] {
      ThirdByteBit(reg1, b);
    }
  }

  function CodeAt(ecc: array<bv8>, off: nat): Code
    requires off + 3 <= ecc.Length
    reads ecc
  {
    Code(ecc[off], ecc[off + 1], ecc[off + 2])
  }

  function InvertedCode(reg1: bv8, reg2: bv8, reg3: bv8): Code {
    Code(!Interleave(reg3, reg2), !Interleave(reg3 << 4, reg2 << 4), ((!reg1) << 2) | 0x03)
  }

  /** Creates the code from the registers and inverts it. */
  method StoreCode(reg1: bv8, reg2: bv8, reg3: bv8, ecc: array<bv8>, eoff: nat)
    requires eoff + 3 <= ecc.Length
    modifies ecc
    ensures CodeAt(ecc, eoff) == InvertedCode(reg1, reg2, reg3)
    ensures forall k :: 0 <= k < ecc.Length && !(eoff <= k < eoff + 3) ==> ecc[k] == old(ecc[k])
  {
    TransResult(reg2, reg3, ecc, eoff);
    ecc[eoff] := !ecc[eoff];
    ecc[eoff + 1] := !ecc[eoff + 1];
    ecc[eoff + 2] := ((!reg1) << 2) | 0x03;
  }

  /** Builds up the column parity and the line parity of the block at `dat[off..]`. */
  method BuildParity(dat: array<bv8>, off: nat) returns (reg1: bv8, reg3: bv8)
    requires off + BLOCK_SIZE <= dat.Length
    ensures RegistersHold(dat[off..off + BLOCK_SIZE], BLOCK_SIZE, Bits(reg1), Bits(reg3))
  {
    ghost var block := dat[off..off + BLOCK_SIZE];
    reg1, reg3 := 0, 0;
    RegistersStart(block);
    for j := 0 to 256
      invariant RegistersHold(block, j, Bits(reg1), Bits(reg3))
    {
      reg1, reg3 := Accumulate(dat[off + j], j, reg1, reg3, block);
    }
  }

  /** Calculates the code of the block at `dat[off..]` into `ecc[eoff..]`. */
  method CalculateEcc(dat: array<bv8>, off: nat, ecc: array<bv8>, eoff: nat)
    requires dat != ecc && off + BLOCK_SIZE <= dat.Length && eoff + 3 <= ecc.Length
    modifies ecc
    ensures CodeAt(ecc, eoff) == CodeOf(dat[off..off + BLOCK_SIZE])
    ensures forall k :: 0 <= k < ecc.Length && !(eoff <= k < eoff + 3) ==> ecc[k] == old(ecc[k])
  {
    ecc[eoff], ecc[eoff + 1], ecc[eoff + 2] := 0, 0, 0;
    var reg1, reg3 := BuildParity(dat, off);
    var reg2 := if reg1 & 0x40 != 0 then !reg3 else reg3;
    CodeOfRegisters(dat[off..off + BLOCK_SIZE], reg1, reg2, reg3);
    StoreCode(reg1, reg2, reg3, ecc, eoff);
  }

  // ---------------------------------------------------------------- correction

  /** Exactly one of each pair of code bits differs: the sign of one wrong data bit. */
  predicate OneDataBit(d: Code) {
    && (d.c0 ^ (d.c0 >> 1)) & 0x55 == 0x55
    && (d.c1 ^ (d.c1 >> 1)) & 0x55 == 0x55
    && (d.c2 ^ (d.c2 >> 1)) & 0x54 == 0x54
  }

  function HighNibble(d: bv8): bv8 {
    (d & 0x80) | ((d & 0x20) << 1) | ((d & 0x08) << 2) | ((d & 0x02) << 3)
  }

  /** The byte address and the bit number spelled by the odd code bits. */
  function AddressOf(d: Code): bv8 {
    HighNibble(d.c0) | (HighNibble(d.c1) >> 4)
  }

  function BitOf(d: Code): (k: bv8)
    ensures k < 8
  {
    HighNibble(d.c2) >> 5
  }

  function Ones(x: bv8): nat
    decreases x
  {
    if x == 0 then 0 else (if x & 1 != 0 then 1 else 0) + Ones(x >> 1)
  }

  /** What correction does: the status returned, and the block and read code it leaves. */
  datatype Correction = Correction(status: int, block: seq<bv8>, read: Code)

  function Correct(block: seq<bv8>, read: Code, recalculated: Code): Correction
    requires |block| == BLOCK_SIZE
  {
    CorrectBy(Xor(recalculated, read), block, read, recalculated)
  }

  function CorrectBy(d: Code, block: seq<bv8>, read: Code, recalculated: Code): Correction
    requires |block| == BLOCK_SIZE
  {
    if d == Code(0, 0, 0) then Correction(0, block, read)
    else if OneDataBit(d) then Correction(1, FlipAddressed(d, block), read)
    else if Ones(d.c0) + Ones(d.c1) + Ones(d.c2) == 1 then Correction(2, block, recalculated)
    else Correction(-1, block, read)
  }

  function FlipAddressed(d: Code, block: seq<bv8>): (r: seq<bv8>)
    requires |block| == BLOCK_SIZE
    ensures |r| == |block|
  {
    FlipBit(block, AddressOf(d) as int, BitOf(d))
  }

  function FlipBit(block: seq<bv8>, j: nat, k: bv8): (r: seq<bv8>)
    requires j < |block| && k < 8
    ensures |r| == |block|
  {
    block[j := XorByte(block[j], 0x01 << k)]
  }

  /** Gathers bits 7, 5, 3 and 1 of `d`, from bit `from` of the result down. */
  method Gather(d: bv8, acc: bv8, from: bv8) returns (r: bv8, a: bv8)
    requires from == 0x80 || from == 0x08
    ensures r == acc | (if from == 0x80 then HighNibble(d) else HighNibble(d) >> 4)
    ensures a == from >> 4
  {
    var c: bv8 := 0x80;
    a, r := from, acc;
    for i := 0 to 4
      invariant i == 0 ==> c == 0x80 && a == from && r == acc
      invariant i == 1 ==> c == 0x20 && a == from >> 1 && r == acc | (if d & 0x80 != 0 then from else 0)
      invariant i == 2 ==> c == 0x08 && a == from >> 2 &&
                           r == acc | (if d & 0x80 != 0 then from else 0) | (if d & 0x20 != 0 then from >> 1 else 0)
      invariant i == 3 ==> c == 0x02 && a == from >> 3 &&
                           r == acc | (if d & 0x80 != 0 then from else 0) | (if d & 0x20 != 0 then from >> 1 else 0) |
                           (if d & 0x08 != 0 then from >> 2 else 0)
      invariant i == 4 ==> a == from >> 4 &&
                           r == acc | (if from == 0x80 then HighNibble(d) else HighNibble(d) >> 4)
    {
      if d & c != 0 {
        r := r | a;
      }
      c := c >> 2;
      a := a >> 1;
    }
  }

  method CountOnes(d: bv8, start: nat) returns (i: nat)
    ensures i == start + Ones(d)
  {
    var rest := d;
    i := start;
    while rest != 0
      invariant i + Ones(rest) == start + Ones(d)
      decreases rest
    {
      if rest & 0x01 != 0 {
        i := i + 1;
      }
      rest := rest >> 1;
    }
  }

  method BitNumber(ghost d1: bv8, ghost d2: bv8, d: bv8) returns (bit: bv8)
    ensures bit == BitOf(Code(d1, d2, d))
  {
    var b: bv8, c: bv8 := 0x04, 0x80;
    bit := 0;
    for i := 0 to 3
      invariant i == 0 ==> b == 0x04 && c == 0x80 && bit == 0
      invariant i == 1 ==> b == 0x02 && c == 0x20 && bit == (HighNibble(d) >> 5) & 0x04
      invariant i == 2 ==> b == 0x01 && c == 0x08 && bit == (HighNibble(d) >> 5) & 0x06
      invariant i == 3 ==> bit == HighNibble(d) >> 5
    {
      if d & c != 0 {
        bit := bit | b;
      }
      c := c >> 2;
      b := b >> 1;
    }
  }

  method Address(d1: bv8, d2: bv8, ghost d3: bv8) returns (add: bv8)
    ensures add == AddressOf(Code(d1, d2, d3))
  {
    var a;
    add, a := Gather(d1, 0, 0x80);
    add, a := Gather(d2, add, a);
  }

  /** Flips the bit that the syndrome points at. */
  method FlipAt(dat: array<bv8>, off: nat, d1: bv8, d2: bv8, d3: bv8)
    requires off + BLOCK_SIZE <= dat.Length
    modifies dat
    ensures dat[off..off + BLOCK_SIZE] == FlipAddressed(Code(d1, d2, d3), old(dat[off..off + BLOCK_SIZE]))
    ensures forall i :: 0 <= i < dat.Length && !(off <= i < off + BLOCK_SIZE) ==> dat[i] == old(dat[i])
  {
    hide AddressOf, BitOf, XorByte, FlipBit;
    var add := Address(d1, d2, d3);
    var bit := BitNumber(d1, d2, d3);
    var p: nat := add as int;
    FlipInPlace(dat, off, p, bit);
  }

  method FlipInPlace(dat: array<bv8>, off: nat, p: nat, bit: bv8)
    requires off + BLOCK_SIZE <= dat.Length && p < BLOCK_SIZE && bit < 8
    modifies dat
    ensures dat[off..off + BLOCK_SIZE] == FlipBit(old(dat[off..off + BLOCK_SIZE]), p, bit)
    ensures forall i :: 0 <= i < dat.Length && !(off <= i < off + BLOCK_SIZE) ==> dat[i] == old(dat[i])
  {
    hide XorByte;
    var a := FlippedByte(dat[off + p], bit);
    Put(dat, off, p, a);
  }

  method FlippedByte(x: bv8, bit: bv8) returns (a: bv8)
    requires bit < 8
    ensures a == XorByte(x, 0x01 << bit)
  {
    a := x ^ (0x01 << bit);
  }

  method Put(dat: array<bv8>, off: nat, p: nat, v: bv8)
    requires off + BLOCK_SIZE <= dat.Length && p < BLOCK_SIZE
    modifies dat
    ensures dat[off..off + BLOCK_SIZE] == old(dat[off..off + BLOCK_SIZE])[p := v]
    ensures forall i :: 0 <= i < dat.Length && !(off <= i < off + BLOCK_SIZE) ==> dat[i] == old(dat[i])
  {
    dat[off + p] := v;
  }

  method IsOneDataBit(d1: bv8, d2: bv8, d3: bv8) returns (found: bool)
    ensures found == OneDataBit(Code(d1, d2, d3))
  {
    var a := (d1 ^ (d1 >> 1)) & 0x55;
    var b := (d2 ^ (d2 >> 1)) & 0x55;
    var c := (d3 ^ (d3 >> 1)) & 0x54;
    found := a == 0x55 && b == 0x55 && c == 0x54;
  }

  /** Acts on a syndrome that is not zero. */
  method ActOn(d1: bv8, d2: bv8, d3: bv8, dat: array<bv8>, off: nat, readEcc: array<bv8>, roff: nat,
               calcEcc: array<bv8>, coff: nat)
    returns (status: int)
    requires dat != readEcc && dat != calcEcc && readEcc != calcEcc
    requires off + BLOCK_SIZE <= dat.Length && roff + 3 <= readEcc.Length && coff + 3 <= calcEcc.Length
    requires Code(d1, d2, d3) != Code(0, 0, 0)
    modifies dat, readEcc
    ensures Correction(status, dat[off..off + BLOCK_SIZE], CodeAt(readEcc, roff)) ==
            CorrectBy(Code(d1, d2, d3), old(dat[off..off + BLOCK_SIZE]), old(CodeAt(readEcc, roff)),
                      CodeAt(calcEcc, coff))
    ensures forall i :: 0 <= i < dat.Length && !(off <= i < off + BLOCK_SIZE) ==> dat[i] == old(dat[i])
    ensures forall i :: 0 <= i < readEcc.Length && !(roff <= i < roff + 3) ==> readEcc[i] == old(readEcc[i])
  {
    var found := IsOneDataBit(d1, d2, d3);
    if found {
      FlipAt(dat, off, d1, d2, d3);
      return 1;
    }
    var i := CountOnes(d1, 0);
    i := CountOnes(d2, i);
    i := CountOnes(d3, i);
    if i == 1 {
      readEcc[roff] := calcEcc[coff];
      readEcc[roff + 1] := calcEcc[coff + 1];
      readEcc[roff + 2] := calcEcc[coff + 2];
      return 2;
    }
    return -1;
  }

  /** Detects and corrects a one-bit error in the block at `dat[off..]`. */
  method CorrectData(dat: array<bv8>, off: nat, readEcc: array<bv8>, roff: nat, calcEcc: array<bv8>, coff: nat)
    returns (status: int)
    requires dat != readEcc && dat != calcEcc && readEcc != calcEcc
    requires off + BLOCK_SIZE <= dat.Length && roff + 3 <= readEcc.Length && coff + 3 <= calcEcc.Length
    modifies dat, readEcc
    ensures Correction(status, dat[off..off + BLOCK_SIZE], CodeAt(readEcc, roff)) ==
            Correct(old(dat[off..off + BLOCK_SIZE]), old(CodeAt(readEcc, roff)), CodeAt(calcEcc, coff))
    ensures forall i :: 0 <= i < dat.Length && !(off <= i < off + BLOCK_SIZE) ==> dat[i] == old(dat[i])
    ensures forall i :: 0 <= i < readEcc.Length && !(roff <= i < roff + 3) ==> readEcc[i] == old(readEcc[i])
  {
    var d1 := calcEcc[coff] ^ readEcc[roff];
    var d2 := calcEcc[coff + 1] ^ readEcc[roff + 1];
    var d3 := calcEcc[coff + 2] ^ readEcc[roff + 2];
    NoDifference(d1, d2, d3);
    if d1 | d2 | d3 == 0 {
      return 0;
    }
    status := ActOn(d1, d2, d3, dat, off, readEcc, roff, calcEcc, coff);
  }

  lemma NoDifference(d1: bv8, d2: bv8, d3: bv8)
    ensures d1 | d2 | d3 == 0 <==> d1 == 0 && d2 == 0 && d3 == 0
  {
  }
}
