/** The alternate memory test against faulty memory: wrong address decoding and stuck bits
    (u-boot-v1.2/common/cmd_mem.c). */
module MemoryTest {
  import opened Basics
  import opened Words

  /** The pattern for a word offset: offsets counted from one, in 32 bits. */
  function Pattern(k: nat): Word {
    Bits((k + 1) % Pow2(WIDTH), WIDTH)
  }

  lemma PatternsDiffer(j: nat, k: nat)
    requires j < k < Pow2(WIDTH)
    ensures Pattern(j) != Pattern(k)
  {
    hide Bits, Pow2;
    var n := Pow2(WIDTH);
    ModAtMost(j + 1, n);
    ModAtMost(k + 1, n);
    if Pattern(j) == Pattern(k) {
      BitsDiffer((j + 1) % n, (k + 1) % n, WIDTH);
    }
  }

  // ---------------------------------------------------------------- memory with faults

  /** One bit of a cell: it holds what is written, or always the same. */
  datatype Line = Fine | Stuck(value: bool)

  type Lines = s: seq<Line> | |s| == WIDTH witness seq(WIDTH, _ => Fine)

  /** What a cell holds after `w` has been written to it. */
  function Held(l: Lines, w: Word): (r: Word)
    ensures forall i :: 0 <= i < WIDTH ==> r[i] == if l[i].Fine? then w[i] else l[i].value
  {
    seq(WIDTH, i requires 0 <= i < WIDTH => if l[i].Fine? then w[i] else l[i].value)
  }

  predicate AllFine(l: Lines) {
    forall i :: 0 <= i < WIDTH ==> l[i].Fine?
  }

  /** Memory as it is wired: which cell an offset selects, and what is wrong with each cell. */
  datatype Chip = Chip(decode: nat -> nat, lines: seq<Lines>)
  {
    ghost predicate Valid() {
      forall k :: decode(k) < |lines|
    }
  }

  function Store(c: Chip, mem: seq<Word>, k: nat, w: Word): (r: seq<Word>)
    requires c.Valid() && |mem| == |c.lines|
    ensures |r| == |mem|
  {
    mem[c.decode(k) := Held(c.lines[c.decode(k)], w)]
  }

  function Load(c: Chip, mem: seq<Word>, k: nat): Word
    requires c.Valid() && |mem| == |c.lines|
  {
    mem[c.decode(k)]
  }

  lemma FineHolds(l: Lines, w: Word)
    requires AllFine(l)
    ensures Held(l, w) == w
  {
  }

  lemma HeldTwice(l: Lines, w: Word)
    ensures Held(l, Held(l, w)) == Held(l, w)
  {
  }

  /** A cell that holds a word and its complement has no stuck bit. */
  lemma BothHeld(l: Lines, w: Word)
    requires Held(l, w) == w && Held(l, Not(w)) == Not(w)
    ensures AllFine(l)
  {
    forall i | 0 <= i < WIDTH ensures l[i].Fine? {
      assert Held(l, w)[i] == w[i] && Held(l, Not(w))[i] == !w[i];
    }
  }

  // ---------------------------------------------------------------- the integrity pass

  function Filled(c: Chip, mem: seq<Word>, n: nat): (r: seq<Word>)
    requires c.Valid() && |mem| == |c.lines|
    ensures |r| == |mem|
  {
    if n == 0 then mem else Store(c, Filled(c, mem, n - 1), n - 1, Pattern(n - 1))
  }

  function Inverted(c: Chip, mem: seq<Word>, n: nat): (r: seq<Word>)
    requires c.Valid() && |mem| == |c.lines|
    ensures |r| == |mem|
  {
    if n == 0 then mem else Store(c, Inverted(c, mem, n - 1), n - 1, Not(Pattern(n - 1)))
  }

  function Zeroed(c: Chip, mem: seq<Word>, n: nat): (r: seq<Word>)
    requires c.Valid() && |mem| == |c.lines|
    ensures |r| == |mem|
  {
    if n == 0 then mem else Store(c, Zeroed(c, mem, n - 1), n - 1, Bits(0, WIDTH))
  }

  predicate ChecksPattern(c: Chip, filled: seq<Word>, k: nat)
    requires c.Valid() && |filled| == |c.lines|
  {
    Load(c, Inverted(c, filled, k), k) == Pattern(k)
  }

  predicate ChecksInverse(c: Chip, inverted: seq<Word>, k: nat)
    requires c.Valid() && |inverted| == |c.lines|
  {
    Load(c, Zeroed(c, inverted, k), k) == Not(Pattern(k))
  }

  /** Every check of the pass over `n` words finds what it expects. */
  ghost predicate Passes(c: Chip, mem: seq<Word>, n: nat)
    requires c.Valid() && |mem| == |c.lines|
  {
    var filled := Filled(c, mem, n);
    && (forall k :: 0 <= k < n ==> ChecksPattern(c, filled, k))
    && forall k :: 0 <= k < n ==> ChecksInverse(c, Inverted(c, filled, n), k)
  }

  /** The first `n` words have cells of their own, without stuck bits. */
  ghost predicate Sound(c: Chip, n: nat)
    requires c.Valid()
  {
    && (forall j, k :: 0 <= j < k < n ==> c.decode(j) != c.decode(k))
    && forall k :: 0 <= k < n ==> AllFine(c.lines[c.decode(k)])
  }

  // ---------------------------------------------------------------- a sound region passes

  /** In a sound region a word is stored where it belongs and nowhere else. */
  lemma SoundStore(c: Chip, mem: seq<Word>, n: nat, j: nat, w: Word, k: nat)
    requires c.Valid() && |mem| == |c.lines| && Sound(c, n) && j < n && k < n
    ensures Load(c, Store(c, mem, j, w), k) == if j == k then w else Load(c, mem, k)
  {
    FineHolds(c.lines[c.decode(j)], w);
  }

  lemma {:induction false} SoundFilled(c: Chip, mem: seq<Word>, n: nat, m: nat, k: nat)
    requires c.Valid() && |mem| == |c.lines| && Sound(c, n) && k < m <= n
    ensures Load(c, Filled(c, mem, m), k) == Pattern(k)
  {
    hide Store, Load, Pattern;
    SoundStore(c, Filled(c, mem, m - 1), n, m - 1, Pattern(m - 1), k);
    if k < m - 1 {
      SoundFilled(c, mem, n, m - 1, k);
    }
  }

  lemma {:induction false} SoundInverted(c: Chip, filled: seq<Word>, n: nat, m: nat, k: nat)
    requires c.Valid() && |filled| == |c.lines| && Sound(c, n) && m <= n && k < n
    ensures Load(c, Inverted(c, filled, m), k) == if k < m then Not(Pattern(k)) else Load(c, filled, k)
  {
    hide Store, Load, Pattern;
    if m > 0 {
      SoundStore(c, Inverted(c, filled, m - 1), n, m - 1, Not(Pattern(m - 1)), k);
      SoundInverted(c, filled, n, m - 1, k);
    }
  }

  lemma {:induction false} SoundZeroed(c: Chip, inverted: seq<Word>, n: nat, m: nat, k: nat)
    requires c.Valid() && |inverted| == |c.lines| && Sound(c, n) && m <= n && k < n
    ensures Load(c, Zeroed(c, inverted, m), k) == if k < m then Bits(0, WIDTH) else Load(c, inverted, k)
  {
    hide Store, Load, Bits;
    if m > 0 {
      SoundStore(c, Zeroed(c, inverted, m - 1), n, m - 1, Bits(0, WIDTH), k);
      SoundZeroed(c, inverted, n, m - 1, k);
    }
  }

  lemma SoundPasses(c: Chip, mem: seq<Word>, n: nat)
    requires c.Valid() && |mem| == |c.lines| && Sound(c, n)
    ensures Passes(c, mem, n)
  {
    hide Pattern, Filled, Inverted, Zeroed, Load, Sound;
    var filled := Filled(c, mem, n);
    forall k | 0 <= k < n ensures ChecksPattern(c, filled, k) {
      SoundFilled(c, mem, n, n, k);
      SoundInverted(c, filled, n, k, k);
    }
    var inverted := Inverted(c, filled, n);
    forall k | 0 <= k < n ensures ChecksInverse(c, inverted, k) {
      SoundInverted(c, filled, n, n, k);
      SoundZeroed(c, inverted, n, k, k);
    }
  }

  // ---------------------------------------------------------------- a region that passes is sound

  /** The last of the first `n` offsets that select the cell, or `n`. */
  function Last(c: Chip, n: nat, cell: nat): (k: nat)
    ensures k <= n && (k < n ==> c.decode(k) == cell)
    ensures forall j :: 0 <= j < n && c.decode(j) == cell ==> j <= k < n
  {
    if n == 0 then 0
    else if c.decode(n - 1) == cell then n - 1
    else if Last(c, n - 1, cell) < n - 1 then Last(c, n - 1, cell) else n
  }

  lemma {:induction false} FilledLast(c: Chip, mem: seq<Word>, n: nat, cell: nat)
    requires c.Valid() && |mem| == |c.lines| && cell < |mem|
    ensures Filled(c, mem, n)[cell] ==
            if Last(c, n, cell) < n then Held(c.lines[cell], Pattern(Last(c, n, cell))) else mem[cell]
  {
    if n > 0 {
      FilledLast(c, mem, n - 1, cell);
    }
  }

  /** A cell none of the first `n` offsets selects is left alone by the first `n` steps. */
  lemma {:induction false} InvertedElsewhere(c: Chip, filled: seq<Word>, n: nat, cell: nat)
    requires c.Valid() && |filled| == |c.lines| && cell < |filled|
    requires forall k :: 0 <= k < n ==> c.decode(k) != cell
    ensures Inverted(c, filled, n)[cell] == filled[cell]
  {
    if n > 0 {
      InvertedElsewhere(c, filled, n - 1, cell);
    }
  }

  ghost predicate Settled(c: Chip, mem: seq<Word>, cell: nat)
    requires cell < |c.lines| == |mem|
  {
    Held(c.lines[cell], mem[cell]) == mem[cell]
  }

  lemma StoreSettles(c: Chip, mem: seq<Word>, k: nat, w: Word, cell: nat)
    requires c.Valid() && cell < |mem| == |c.lines|
    ensures Settled(c, mem, cell) || c.decode(k) == cell ==> Settled(c, Store(c, mem, k, w), cell)
  {
    HeldTwice(c.lines[c.decode(k)], w);
  }

  lemma {:induction false} FilledSettled(c: Chip, mem: seq<Word>, n: nat, k: nat)
    requires c.Valid() && |mem| == |c.lines| && k < n
    ensures Settled(c, Filled(c, mem, n), c.decode(k))
  {
    hide Settled, Store;
    if k < n - 1 {
      FilledSettled(c, mem, n - 1, k);
    }
    StoreSettles(c, Filled(c, mem, n - 1), n - 1, Pattern(n - 1), c.decode(k));
  }

  lemma {:induction false} InvertedSettled(c: Chip, mem: seq<Word>, n: nat, cell: nat)
    requires c.Valid() && cell < |mem| == |c.lines| && Settled(c, mem, cell)
    ensures Settled(c, Inverted(c, mem, n), cell)
  {
    hide Settled, Store;
    if n > 0 {
      InvertedSettled(c, mem, n - 1, cell);
      StoreSettles(c, Inverted(c, mem, n - 1), n - 1, Not(Pattern(n - 1)), cell);
    }
  }

  lemma {:induction false} ZeroedSettled(c: Chip, mem: seq<Word>, n: nat, cell: nat)
    requires c.Valid() && cell < |mem| == |c.lines| && Settled(c, mem, cell)
    ensures Settled(c, Zeroed(c, mem, n), cell)
  {
    hide Settled, Store;
    if n > 0 {
      ZeroedSettled(c, mem, n - 1, cell);
      StoreSettles(c, Zeroed(c, mem, n - 1), n - 1, Bits(0, WIDTH), cell);
    }
  }

  /** A stuck bit is found: each cell was seen to hold a pattern and its complement. */
  lemma PassedFine(c: Chip, mem: seq<Word>, n: nat, k: nat)
    requires c.Valid() && |mem| == |c.lines| && Passes(c, mem, n) && k < n
    ensures AllFine(c.lines[c.decode(k)])
  {
    hide Pattern, Filled, Inverted, Zeroed;
    var filled := Filled(c, mem, n);
    var inverted := Inverted(c, filled, n);
    FilledSettled(c, mem, n, k);
    InvertedSettled(c, filled, k, c.decode(k));
    InvertedSettled(c, filled, n, c.decode(k));
    ZeroedSettled(c, inverted, k, c.decode(k));
    assert ChecksPattern(c, filled, k) && ChecksInverse(c, inverted, k);
    BothHeld(c.lines[c.decode(k)], Pattern(k));
  }

  /** Two offsets in one cell are found: the first of them reads the pattern of the last. */
  lemma {:induction false} PassedApart(c: Chip, mem: seq<Word>, n: nat, j: nat, k: nat)
    requires c.Valid() && |mem| == |c.lines| && Passes(c, mem, n) && j < k < n <= Pow2(WIDTH)
    ensures c.decode(j) != c.decode(k)
    decreases j
  {
    if c.decode(j) == c.decode(k) {
      if i :| 0 <= i < j && c.decode(i) == c.decode(j) {
        PassedApart(c, mem, n, i, k);
      } else {
        hide Pattern, Inverted;
        var filled, cell := Filled(c, mem, n), c.decode(j);
        InvertedElsewhere(c, filled, j, cell);
        FilledLast(c, mem, n, cell);
        PassedFine(c, mem, n, j);
        FineHolds(c.lines[cell], Pattern(Last(c, n, cell)));
        assert ChecksPattern(c, filled, j);
        PatternsDiffer(j, Last(c, n, cell));
      }
    }
  }

  /** The integrity pass over any region below 2^32 words finds no fault exactly if the region has none. */
  lemma PassesExactlySound(c: Chip, mem: seq<Word>, n: nat)
    requires c.Valid() && |mem| == |c.lines| && n <= Pow2(WIDTH)
    ensures Passes(c, mem, n) <==> Sound(c, n)
  {
    if Passes(c, mem, n) {
      forall k | 0 <= k < n ensures AllFine(c.lines[c.decode(k)]) {
        PassedFine(c, mem, n, k);
      }
      forall j, k | 0 <= j < k < n ensures c.decode(j) != c.decode(k) {
        PassedApart(c, mem, n, j, k);
      }
    }
    if Sound(c, n) {
      SoundPasses(c, mem, n);
    }
  }

  /** After a sound region has passed it is all zero, and cells outside it are what they were. */
  lemma PassedEndsZero(c: Chip, mem: seq<Word>, n: nat, cell: nat)
    requires c.Valid() && cell < |mem| == |c.lines| && Sound(c, n)
    ensures var after := Zeroed(c, Inverted(c, Filled(c, mem, n), n), n);
            after[cell] == if Last(c, n, cell) < n then Bits(0, WIDTH) else mem[cell]
  {
    hide Filled, Inverted, Zeroed, Bits;
    var inverted := Inverted(c, Filled(c, mem, n), n);
    if Last(c, n, cell) < n {
      SoundZeroed(c, inverted, n, n, Last(c, n, cell));
    } else {
      FilledLast(c, mem, n, cell);
      InvertedElsewhere(c, Filled(c, mem, n), n, cell);
      ZeroedElsewhere(c, inverted, n, cell);
    }
  }

  lemma {:induction false} ZeroedElsewhere(c: Chip, inverted: seq<Word>, n: nat, cell: nat)
    requires c.Valid() && |inverted| == |c.lines| && cell < |inverted|
    requires forall k :: 0 <= k < n ==> c.decode(k) != cell
    ensures Zeroed(c, inverted, n)[cell] == inverted[cell]
  {
    if n > 0 {
      ZeroedElsewhere(c, inverted, n - 1, cell);
    }
  }

  // ---------------------------------------------------------------- address lines

  const PATTERN: Word := Bits(0xaaaaaaaa, WIDTH)
  const ANTI_PATTERN: Word := Bits(0x55555555, WIDTH)

  lemma PatternsOpposite()
    ensures PATTERN != ANTI_PATTERN
  {
    assert PATTERN[0] == false && ANTI_PATTERN[0] == true;
  }

  /** How many of the lowest bits of the mask are set: these address lines are tested. */
  function LinesOf(mask: nat): nat {
    if mask % 2 == 1 then 1 + LinesOf(mask / 2) else 0
  }

  lemma DivTwice(x: nat, p: nat)
    requires p > 0
    ensures x / (2 * p) == (x / 2) / p
  {
    var q, r := (x / 2) / p, (x / 2) % p;
    assert x == 2 * (p * q + r) + x % 2;
    assert x == (2 * p) * q + (2 * r + x % 2) by {
      assert 2 * (p * q) == (2 * p) * q;
    }
    DivIs(x, 2 * p, q, 2 * r + x % 2);
  }

  /** The bit of line `i` is the last one looked at that is set. */
  lemma {:induction false} LineBit(mask: nat, i: nat)
    requires i <= LinesOf(mask)
    ensures (mask / Pow2(i)) % 2 == 1 <==> i < LinesOf(mask)
  {
    if i > 0 {
      DivTwice(mask, Pow2(i - 1));
      LineBit(mask / 2, i - 1);
    }
  }

  /** The offsets the address-line pass tests: 0, and one for each address line. */
  function Tested(i: nat): nat {
    if i == 0 then 0 else Pow2(i - 1)
  }

  lemma LineTest(mask: nat, i: nat)
    requires 1 <= i <= LinesOf(mask) + 1
    ensures Tested(i) > 0 && ((mask / Tested(i)) % 2 == 1 <==> i <= LinesOf(mask))
  {
    LineBit(mask, i - 1);
  }

  /** The tested offsets have cells of their own. */
  ghost predicate Distinct(c: Chip, m: nat) {
    forall j, k :: 0 <= j < k <= m ==> c.decode(Tested(j)) != c.decode(Tested(k))
  }

  /** What the cell of tested offset `k` reads after `w` has been written to it. */
  function Back(c: Chip, k: nat, w: Word): Word
    requires c.Valid()
  {
    Held(c.lines[c.decode(Tested(k))], w)
  }

  /** What address line `k` reads while number `t` is under test: its cell was written last with the other pattern if
      it is the cell of `t`. */
  function Seen(c: Chip, k: nat, t: nat): Word
    requires c.Valid()
  {
    Back(c, k, if c.decode(Tested(k)) == c.decode(Tested(t)) then ANTI_PATTERN else PATTERN)
  }

  /** All address lines but number `t` read the pattern while `t` is under test. */
  ghost predicate Silent(c: Chip, m: nat, t: nat)
    requires c.Valid()
  {
    forall k :: 1 <= k <= m && k != t ==> Seen(c, k, t) == PATTERN
  }

  ghost predicate AllSilent(c: Chip, m: nat)
    requires c.Valid()
  {
    forall t :: 0 <= t <= m ==> Silent(c, m, t)
  }

  /** The cells of the tested offsets can hold both patterns. */
  ghost predicate Clean(c: Chip, m: nat)
    requires c.Valid()
  {
    forall k :: 0 <= k <= m ==>
                  var l := c.lines[c.decode(Tested(k))];
                  Held(l, PATTERN) == PATTERN && Held(l, ANTI_PATTERN) == ANTI_PATTERN
  }

  // ---------------------------------------------------------------- the test itself

  class Memory {
    const decode: nat -> nat
    const lines: seq<Lines>
    var cells: seq<Word>

    function Wiring(): Chip {
      Chip(decode, lines)
    }

    ghost predicate Valid()
      reads this
    {
      Wiring().Valid() && |cells| == |lines|
    }

    constructor (wiring: Chip, cells: seq<Word>)
      requires wiring.Valid() && |cells| == |wiring.lines|
      ensures Valid() && Wiring() == wiring && this.cells == cells
    {
      decode, lines, this.cells := wiring.decode, wiring.lines, cells;
    }

    method Write(k: nat, w: Word)
      requires Valid()
      modifies this
      ensures Valid() && cells == Store(Wiring(), old(cells), k, w)
    {
      cells := cells[decode(k) := Held(lines[decode(k)], w)];
    }

    method Fetch(k: nat) returns (w: Word)
      requires Valid()
      ensures w == Load(Wiring(), cells, k)
    {
      w := cells[decode(k)];
    }

    /** Fills `n` words with their patterns, checks and inverts each, and checks and zeroes each. */
    method IntegrityPass(n: nat) returns (rc: nat)
      requires Valid() && n <= Pow2(WIDTH)
      modifies this
      ensures Valid() && rc == if Sound(Wiring(), n) then 0 else 1
      ensures rc == 0 ==> forall i :: 0 <= i < |cells| ==>
                                        cells[i] == if Last(Wiring(), n, i) < n then Bits(0, WIDTH) else old(cells)[i]
    {
      hide Sound, Held, Filled, Inverted, Zeroed, Pattern, Store, Load, Bits, Last;
      ghost var c, mem := Wiring(), cells;
      PassesExactlySound(c, mem, n);
      FillPass(n);
      ghost var filled := cells;
      var ok := InvertPass(n);
      if !ok {
        return 1;
      }
      ok := ZeroPass(n);
      if !ok {
        return 1;
      }
      forall i | 0 <= i < |cells| ensures cells[i] == if Last(c, n, i) < n then Bits(0, WIDTH) else mem[i] {
        PassedEndsZero(c, mem, n, i);
      }
      return 0;
    }

    method FillPass(n: nat)
      requires Valid()
      modifies this
      ensures Valid() && cells == Filled(Wiring(), old(cells), n)
    {
      hide Store, Bits, Pow2;
      var pattern, offset := 1, 0;
      FirstPattern();
      while offset < n
        invariant Valid() && 0 <= offset <= n && pattern == (offset + 1) % Pow2(WIDTH)
        invariant cells == Filled(Wiring(), old(cells), offset)
      {
        Write(offset, Bits(pattern, WIDTH));
        NextPattern(offset + 1);
        pattern, offset := (pattern + 1) % Pow2(WIDTH), offset + 1;
      }
    }

    method InvertPass(n: nat) returns (ok: bool)
      requires Valid()
      modifies this
      ensures Valid() && (ok <==> forall k :: 0 <= k < n ==> ChecksPattern(Wiring(), old(cells), k))
      ensures ok ==> cells == Inverted(Wiring(), old(cells), n)
    {
      hide Store, Bits, Pow2, Load;
      var pattern, offset := 1, 0;
      FirstPattern();
      while offset < n
        invariant Valid() && 0 <= offset <= n && pattern == (offset + 1) % Pow2(WIDTH)
        invariant cells == Inverted(Wiring(), old(cells), offset)
        invariant forall k :: 0 <= k < offset ==> ChecksPattern(Wiring(), old(cells), k)
      {
        var temp := Fetch(offset);
        if temp != Bits(pattern, WIDTH) {
          assert !ChecksPattern(Wiring(), old(cells), offset);
          return false;
        }
        Write(offset, Not(Bits(pattern, WIDTH)));
        NextPattern(offset + 1);
        pattern, offset := (pattern + 1) % Pow2(WIDTH), offset + 1;
      }
      return true;
    }

    method ZeroPass(n: nat) returns (ok: bool)
      requires Valid()
      modifies this
      ensures Valid() && (ok <==> forall k :: 0 <= k < n ==> ChecksInverse(Wiring(), old(cells), k))
      ensures ok ==> cells == Zeroed(Wiring(), old(cells), n)
    {
      hide Store, Bits, Pow2, Load;
      var pattern, offset := 1, 0;
      FirstPattern();
      while offset < n
        invariant Valid() && 0 <= offset <= n && pattern == (offset + 1) % Pow2(WIDTH)
        invariant cells == Zeroed(Wiring(), old(cells), offset)
        invariant forall k :: 0 <= k < offset ==> ChecksInverse(Wiring(), old(cells), k)
      {
        var temp := Fetch(offset);
        if temp != Not(Bits(pattern, WIDTH)) {
          assert !ChecksInverse(Wiring(), old(cells), offset);
          return false;
        }
        Write(offset, Bits(0, WIDTH));
        NextPattern(offset + 1);
        pattern, offset := (pattern + 1) % Pow2(WIDTH), offset + 1;
      }
      return true;
    }

    /** Writes the pattern at the offset of every address line. */
    method Arm(mask: nat)
      requires Valid()
      modifies this
      ensures Valid() && ReadsPattern(Wiring(), cells, LinesOf(mask))
    {
      hide Store, Load, Tested, LinesOf, ReadsPattern;
      ghost var c, m := Wiring(), LinesOf(mask);
      var offset: nat := 1;
      ghost var i: nat := 1;
      FirstLine();
      NoneRead(c, cells);
      while offset > 0 && (mask / offset) % 2 == 1
        invariant Valid() && 1 <= i <= m + 1 && offset == Tested(i)
        invariant ReadsPattern(c, cells, i - 1)
        decreases m + 1 - i
      {
        LineTest(mask, i);
        ArmOne(c, cells, i);
        Write(offset, PATTERN);
        offset := 2 * offset;
        i := i + 1;
        NextLine(i);
      }
      LineTest(mask, i);
    }

    /** Whether every address line but the one under test still reads the pattern. */
    method CheckOthers(mask: nat, testOffset: nat, ghost t: nat) returns (ok: bool)
      requires Valid() && t <= LinesOf(mask) && testOffset == Tested(t)
      requires ReadsOdd(Wiring(), cells, LinesOf(mask), t)
      ensures ok <==> Silent(Wiring(), LinesOf(mask), t)
    {
      hide Store, Load, Tested, ReadsOdd, Silent, LinesOf, Bits, Not, Pow2, Seen;
      ghost var c, m := Wiring(), LinesOf(mask);
      var offset: nat := 1;
      ghost var i: nat := 1;
      FirstLine();
      NothingSeen(c, t);
      while offset > 0 && (mask / offset) % 2 == 1
        invariant Valid() && 1 <= i <= m + 1 && offset == Tested(i)
        invariant Silent(c, i - 1, t)
        decreases m + 1 - i
      {
        LineTest(mask, i);
        TestedApart(i, t);
        var temp := Fetch(offset);
        OddRead(c, cells, m, t, i);
        if temp != PATTERN && offset != testOffset {
          NotSilent(c, m, t, i);
          return false;
        }
        SilentStep(c, i, t);
        offset := 2 * offset;
        i := i + 1;
        NextLine(i);
      }
      LineTest(mask, i);
      return true;
    }

    /** Walks a one over the address lines of the mask and looks for offsets that share a cell. */
    method AddressLinePass(mask: nat) returns (rc: nat)
      requires Valid()
      modifies this
      ensures Valid() && rc == if AllSilent(Wiring(), LinesOf(mask)) then 0 else 1
    {
      hide Store, Load, Tested, LinesOf, Silent, AllSilent, ReadsPattern, ReadsOdd;
      ghost var c, m := Wiring(), LinesOf(mask);
      Arm(mask);
      FirstLine();
      var ok := TestOne(mask, 0, 0);
      if !ok {
        NotAllSilent(c, m, 0);
        return 1;
      }
      var testOffset: nat := 1;
      ghost var t: nat := 1;
      while testOffset > 0 && (mask / testOffset) % 2 == 1
        invariant Valid() && 1 <= t <= m + 1 && testOffset == Tested(t)
        invariant ReadsPattern(c, cells, m) && forall j :: 0 <= j < t ==> Silent(c, m, j)
        decreases m + 1 - t
      {
        LineTest(mask, t);
        ok := TestOne(mask, testOffset, t);
        if !ok {
          NotAllSilent(c, m, t);
          return 1;
        }
        testOffset := 2 * testOffset;
        t := t + 1;
        NextLine(t);
      }
      LineTest(mask, t);
      EachSilent(c, m);
      return 0;
    }

    /** Writes the other pattern at one tested offset, looks at all others, and writes the pattern back. */
    method TestOne(mask: nat, testOffset: nat, ghost t: nat) returns (ok: bool)
      requires Valid() && t <= LinesOf(mask) && testOffset == Tested(t)
      requires ReadsPattern(Wiring(), cells, LinesOf(mask))
      modifies this
      ensures Valid() && (ok <==> Silent(Wiring(), LinesOf(mask), t))
      ensures ok ==> ReadsPattern(Wiring(), cells, LinesOf(mask))
    {
      hide Store, Load, Tested, LinesOf, Silent, ReadsPattern, ReadsOdd;
      ghost var c, m := Wiring(), LinesOf(mask);
      OddWritten(c, cells, m, t);
      Write(testOffset, ANTI_PATTERN);
      ok := CheckOthers(mask, testOffset, t);
      if ok {
        PatternWritten(c, cells, m, t);
        Write(testOffset, PATTERN);
      }
    }
  }

  /** Every address line reads what its cell makes of the pattern. */
  ghost predicate ReadsPattern(c: Chip, mem: seq<Word>, m: nat)
    requires c.Valid() && |mem| == |c.lines|
  {
    forall k :: 1 <= k <= m ==> Load(c, mem, Tested(k)) == Back(c, k, PATTERN)
  }

  /** The address lines in the cell of number `t` read what it makes of the other pattern. */
  ghost predicate ReadsOdd(c: Chip, mem: seq<Word>, m: nat, t: nat)
    requires c.Valid() && |mem| == |c.lines|
  {
    forall k :: 1 <= k <= m ==> Load(c, mem, Tested(k)) == Seen(c, k, t)
  }

  lemma NoneRead(c: Chip, mem: seq<Word>)
    requires c.Valid() && |mem| == |c.lines|
    ensures ReadsPattern(c, mem, 0)
  {
  }

  lemma StoreReads(c: Chip, mem: seq<Word>, j: nat, k: nat, w: Word)
    requires c.Valid() && |mem| == |c.lines|
    ensures Load(c, Store(c, mem, Tested(j), w), Tested(k)) ==
            if c.decode(Tested(k)) == c.decode(Tested(j)) then Back(c, k, w) else Load(c, mem, Tested(k))
  {
    hide Tested, Bits, Held;
  }

  lemma ArmOne(c: Chip, mem: seq<Word>, i: nat)
    requires c.Valid() && |mem| == |c.lines| && i > 0 && ReadsPattern(c, mem, i - 1)
    ensures ReadsPattern(c, Store(c, mem, Tested(i), PATTERN), i)
  {
    hide Store, Load, Tested, Bits, Not, Pow2, Back;
    forall k | 1 <= k <= i
      ensures Load(c, Store(c, mem, Tested(i), PATTERN), Tested(k)) == Back(c, k, PATTERN)
    {
      StoreReads(c, mem, i, k, PATTERN);
    }
  }

  lemma OddWritten(c: Chip, mem: seq<Word>, m: nat, t: nat)
    requires c.Valid() && |mem| == |c.lines| && ReadsPattern(c, mem, m)
    ensures ReadsOdd(c, Store(c, mem, Tested(t), ANTI_PATTERN), m, t)
  {
    hide Store, Load, Tested, Bits, Not, Pow2, Back;
    forall k | 1 <= k <= m ensures Load(c, Store(c, mem, Tested(t), ANTI_PATTERN), Tested(k)) == Seen(c, k, t) {
      StoreReads(c, mem, t, k, ANTI_PATTERN);
    }
  }

  lemma PatternWritten(c: Chip, mem: seq<Word>, m: nat, t: nat)
    requires c.Valid() && |mem| == |c.lines| && ReadsOdd(c, mem, m, t)
    ensures ReadsPattern(c, Store(c, mem, Tested(t), PATTERN), m)
  {
    hide Store, Load, Tested, Bits, Not, Pow2, Back;
    forall k | 1 <= k <= m
      ensures Load(c, Store(c, mem, Tested(t), PATTERN), Tested(k)) == Back(c, k, PATTERN)
    {
      StoreReads(c, mem, t, k, PATTERN);
    }
  }

  lemma OddRead(c: Chip, mem: seq<Word>, m: nat, t: nat, k: nat)
    requires c.Valid() && |mem| == |c.lines| && ReadsOdd(c, mem, m, t) && 1 <= k <= m
    ensures Load(c, mem, Tested(k)) == Seen(c, k, t)
  {
  }

  lemma NothingSeen(c: Chip, t: nat)
    requires c.Valid()
    ensures Silent(c, 0, t)
  {
  }

  lemma NotSilent(c: Chip, m: nat, t: nat, k: nat)
    requires c.Valid() && 1 <= k <= m && k != t
    ensures Seen(c, k, t) != PATTERN ==> !Silent(c, m, t)
  {
  }

  lemma SilentStep(c: Chip, m: nat, t: nat)
    requires c.Valid() && m > 0
    ensures Silent(c, m, t) <==> Silent(c, m - 1, t) && (m == t || Seen(c, m, t) == PATTERN)
  {
    hide Seen;
  }

  lemma NotAllSilent(c: Chip, m: nat, t: nat)
    requires c.Valid() && t <= m
    ensures !Silent(c, m, t) ==> !AllSilent(c, m)
  {
    hide Silent;
  }

  lemma EachSilent(c: Chip, m: nat)
    requires c.Valid() && forall j :: 0 <= j <= m ==> Silent(c, m, j)
    ensures AllSilent(c, m)
  {
  }

  /** Where the tested cells can hold both patterns, nothing is reported exactly if all tested offsets have cells of
      their own. */
  lemma SilentIsDistinct(c: Chip, m: nat)
    requires c.Valid() && Clean(c, m)
    ensures AllSilent(c, m) <==> Distinct(c, m)
  {
    hide Tested, Held, Bits, Not, Pow2;
    PatternsOpposite();
    forall k, t | 0 <= k <= m && 0 <= t <= m
      ensures Seen(c, k, t) == PATTERN <==> c.decode(Tested(k)) != c.decode(Tested(t))
    {
    }
    if AllSilent(c, m) {
      forall j, k | 0 <= j < k <= m ensures c.decode(Tested(j)) != c.decode(Tested(k)) {
        assert Silent(c, m, j) && Seen(c, k, j) == PATTERN;
      }
    }
    if Distinct(c, m) {
      forall t, k | 0 <= t <= m && 1 <= k <= m && k != t ensures Seen(c, k, t) == PATTERN {
        assert if t < k then c.decode(Tested(t)) != c.decode(Tested(k)) else c.decode(Tested(k)) != c.decode(Tested(t));
      }
    }
  }

  lemma LineInside(mask: nat, i: nat)
    requires 0 < i <= LinesOf(mask)
    ensures 0 < Tested(i) <= mask
  {
    LineTest(mask, i);
    DivSmall(mask, Tested(i));
  }

  lemma DivSmall(x: nat, p: nat)
    requires p > 0 && (x / p) % 2 == 1
    ensures p <= x
  {
    if x < p {
      DivIs(x, p, 0, x);
    }
  }

  lemma OwnCell(c: Chip, n: nat, k: nat)
    requires c.Valid() && Sound(c, n) && k < n
    ensures AllFine(c.lines[c.decode(k)])
  {
  }

  lemma CellsApart(c: Chip, n: nat, j: nat, k: nat)
    requires c.Valid() && Sound(c, n) && j < n && k < n && j != k
    ensures c.decode(j) != c.decode(k)
  {
  }

  /** On healthy memory the pass reports nothing: the tested offsets lie in the region, and differ. */
  lemma HealthySilent(c: Chip, mask: nat)
    requires c.Valid() && Sound(c, mask + 1)
    ensures Clean(c, LinesOf(mask)) && Distinct(c, LinesOf(mask)) && AllSilent(c, LinesOf(mask))
  {
    hide Held, Bits, Not, Pow2, LinesOf;
    var m := LinesOf(mask);
    forall k | 0 <= k <= m ensures Tested(k) < mask + 1 && AllFine(c.lines[c.decode(Tested(k))]) {
      if k > 0 {
        LineInside(mask, k);
      }
      OwnCell(c, mask + 1, Tested(k));
    }
    hide Tested, Sound;
    forall k | 0 <= k <= m
      ensures Back(c, k, PATTERN) == PATTERN && Back(c, k, ANTI_PATTERN) == ANTI_PATTERN
    {
      FineHolds(c.lines[c.decode(Tested(k))], PATTERN);
      FineHolds(c.lines[c.decode(Tested(k))], ANTI_PATTERN);
    }
    forall j, k | 0 <= j < k <= m ensures c.decode(Tested(j)) != c.decode(Tested(k)) {
      TestedApart(k, j);
      CellsApart(c, mask + 1, Tested(j), Tested(k));
    }
    SilentIsDistinct(c, m);
  }

  lemma FirstLine()
    ensures 0 == Tested(0) && 1 == Tested(1)
  {
    assert Pow2(0) == 1;
  }

  lemma NextLine(i: nat)
    requires i > 1
    ensures Tested(i) == 2 * Tested(i - 1)
  {
  }

  lemma TestedApart(i: nat, j: nat)
    requires i > 0
    ensures Tested(i) == Tested(j) <==> i == j
  {
    if 0 < j < i {
      Pow2Grows(j - 1, i - 1);
    } else if i < j {
      Pow2Grows(i - 1, j - 1);
    }
  }

  lemma ModSucc(k: nat, n: nat)
    requires n > 0
    ensures (k % n + 1) % n == (k + 1) % n
  {
    ModIs(k + 1, n, k / n, k % n + 1);
  }

  lemma ModIs(x: nat, n: nat, q: nat, r: nat)
    requires n > 0 && x == n * q + r && r <= n
    ensures x % n == r % n
  {
    ModAtMost(if r == 0 then n else r, n);
    if r == n {
      assert n * (q + 1) == n * q + n;
      DivIs(x, n, q + 1, 0);
    } else {
      DivIs(x, n, q, r);
      DivIs(r, n, 0, r);
    }
  }

  lemma FirstPattern()
    ensures 1 == 1 % Pow2(WIDTH)
  {
    hide Pow2;
    Pow2Grows(0, WIDTH);
    ModAtMost(1, Pow2(WIDTH));
  }

  lemma NextPattern(k: nat)
    ensures (k % Pow2(WIDTH) + 1) % Pow2(WIDTH) == (k + 1) % Pow2(WIDTH)
  {
    hide Pow2;
    ModSucc(k, Pow2(WIDTH));
  }
}
