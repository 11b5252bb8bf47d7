/** What the transfer loops of the NAND driver read and write, and that reading undoes writing across bad blocks
    (u-boot-v1.2/common/cmd_nand.c). */
module NandTransfer {
  import opened Basics
  import opened NandEcc
  import opened NandEccTheorems
  import opened NandPage

  function CeilPages(n: nat): nat {
    (n + 511) / 512
  }

  // ---------------------------------------------------------------- what a read returns and what a write leaves

  /** The data of `n` pages from page `first` on. */
  function ReadData(cfg: OobConfig, pages: seq<Page>, first: nat, n: nat): (r: seq<bv8>)
    requires cfg.Valid() && first + n <= |pages|
    ensures |r| == n * OOB_BLOCK
    decreases n
  {
    if n == 0 then [] else ReadData(cfg, pages, first, n - 1) + PageData(cfg, pages[first + n - 1])
  }

  ghost predicate ReadFails(cfg: OobConfig, pages: seq<Page>, first: nat, n: nat)
    requires cfg.Valid() && first + n <= |pages|
  {
    exists p :: first <= p < first + n && PageFails(cfg, pages[p])
  }

  /** How many bytes of the caller's memory a write of `len` bytes looks at. */
  function Fetched(len: nat): (n: nat)
    ensures n >= len
  {
    if len < OOB_BLOCK then len else CeilPages(len) * OOB_BLOCK
  }

  /** The bytes put into one page after the other: whole pages are fetched if the length is a page or more. */
  function Chunks(mem: seq<bv8>, len: nat): (r: seq<seq<bv8>>)
    requires Fetched(len) <= |mem|
    ensures |r| == CeilPages(len) && forall c :: c in r ==> |c| <= OOB_BLOCK
  {
    if len == 0 then []
    else if len < OOB_BLOCK then [mem[..len]]
    else seq(CeilPages(len), i requires 0 <= i < CeilPages(len) => mem[i * 512..(i + 1) * 512])
  }

  datatype Written = Written(pages: seq<Page>, ok: bool)

  /** The pages after writing `chunks` from page `page` on; a page whose program operation reports failure ends
      the write. */
  function WriteChunks(cfg: OobConfig, pages: seq<Page>, worn: set<nat>, page: nat, chunks: seq<seq<bv8>>): (w: Written)
    requires cfg.Valid() && page + |chunks| <= |pages| && forall c :: c in chunks ==> |c| <= OOB_BLOCK
    ensures |w.pages| == |pages|
    decreases |chunks|
  {
    if chunks == [] then Written(pages, true)
    else
      var after := pages[page := Program(pages[page], PageImage(cfg, chunks[0]))];
      if page in worn then Written(after, false) else WriteChunks(cfg, after, worn, page + 1, chunks[1..])
  }

  lemma PageCount(len: nat, i: nat)
    ensures i < CeilPages(len) <==> i * 512 < len
    ensures len < 512 ==> CeilPages(len) <= 1
  {
  }

  lemma RoomFor(to: nat, len: nat, n: nat)
    requires to % 512 == 0 && to + len <= n * 512
    ensures to / 512 + CeilPages(len) <= n
  {
  }

  lemma ChunkAt(mem: seq<bv8>, len: nat, i: nat)
    requires Fetched(len) <= |mem| && i < CeilPages(len)
    ensures var cnt := if len >= OOB_BLOCK then OOB_BLOCK else len;
            i * 512 + cnt <= Fetched(len) && Chunks(mem, len)[i] == mem[i * 512..i * 512 + cnt]
  {
  }

  lemma WriteStep(cfg: OobConfig, pages: seq<Page>, worn: set<nat>, page: nat, chunks: seq<seq<bv8>>, i: nat)
    requires cfg.Valid() && i < |chunks| && page + |chunks| - i <= |pages|
    requires forall c :: c in chunks ==> |c| <= OOB_BLOCK
    ensures var after := pages[page := Program(pages[page], PageImage(cfg, chunks[i]))];
            WriteChunks(cfg, pages, worn, page, chunks[i..]) ==
            if page in worn then Written(after, false) else WriteChunks(cfg, after, worn, page + 1, chunks[i + 1..])
  {
    hide Program, PageImage;
    assert chunks[i..][1..] == chunks[i + 1..];
  }

  lemma WriteEnd(cfg: OobConfig, pages: seq<Page>, worn: set<nat>, page: nat, chunks: seq<seq<bv8>>)
    requires cfg.Valid() && page <= |pages|
    ensures WriteChunks(cfg, pages, worn, page, chunks[|chunks|..]) == Written(pages, true)
  {
  }

  lemma ReadStart(cfg: OobConfig, pages: seq<Page>, first: nat, buf: seq<bv8>, at: nat)
    requires cfg.Valid() && first <= |pages| && at <= |buf|
    ensures ReadData(cfg, pages, first, 0) == [] && !ReadFails(cfg, pages, first, 0) && Splice(buf, at, []) == buf
  {
  }

  lemma ReadStep(cfg: OobConfig, pages: seq<Page>, first: nat, i: nat, n: nat)
    requires cfg.Valid() && first + i < |pages| && n <= OOB_BLOCK
    ensures ReadData(cfg, pages, first, i)[..i * OOB_BLOCK] + PageData(cfg, pages[first + i])[..n] ==
            ReadData(cfg, pages, first, i + 1)[..i * OOB_BLOCK + n]
  {
    hide PageData;
  }

  lemma FailsStep(cfg: OobConfig, pages: seq<Page>, first: nat, n: nat)
    requires cfg.Valid() && first + n < |pages|
    ensures ReadFails(cfg, pages, first, n + 1) <==> ReadFails(cfg, pages, first, n) || PageFails(cfg, pages[first + n])
  {
    if ReadFails(cfg, pages, first, n) {
      var p :| first <= p < first + n && PageFails(cfg, pages[p]);
    }
  }

  /** Every read that covers a page with a fatal pair of flips in a half, in whichever place, reports a failure. */
  lemma ReadReports(cfg: OobConfig, pages: seq<Page>, first: nat, n: nat, p: nat, page: Page, chunk: seq<bv8>, h: nat,
                    d: Damage)
    requires cfg.Valid() && cfg.eccvalidPos != -1 && first <= p < first + n <= |pages|
    requires Erased(cfg, page) && |chunk| <= OOB_BLOCK && h < 2 && Fills(chunk, h)
    requires Suffered(cfg, page, chunk, pages[p], h, d) && d.Fatal()
    ensures ReadFails(cfg, pages, first, n)
  {
    hide Suffered, PageFails;
    LostHalfReported(cfg, page, chunk, pages[p], h, d);
  }

  // ---------------------------------------------------------------- bad blocks and the course of a transfer

  /** A device consists of whole blocks, and so do the addresses of 32 bits. */
  predicate ProperSizes(erasesize: nat, totlen: nat) {
    && erasesize >= 2 * OOB_BLOCK && erasesize % OOB_BLOCK == 0 && totlen % erasesize == 0
    && totlen < WORD_LIMIT && erasesize < WORD_LIMIT && WORD_LIMIT % erasesize == 0
  }

  /** The sizes of a chip and what is known of its pages. */
  datatype Geometry = Geometry(cfg: OobConfig, erasesize: nat, totlen: nat, worn: set<nat>)
  {
    predicate Valid() {
      cfg.Valid() && ProperSizes(erasesize, totlen)
    }

    predicate Fits(pages: seq<Page>) {
      Valid() && |pages| * OOB_BLOCK == totlen
    }
  }

  function BlockStart(g: Geometry, pos: nat): (b: nat)
    requires g.Valid()
    ensures b <= pos < b + g.erasesize
  {
    pos - pos % g.erasesize
  }

  lemma BlockInside(g: Geometry, pos: nat)
    requires g.Valid() && pos < g.totlen
    ensures BlockStart(g, pos) + g.erasesize <= g.totlen
    ensures BlockStart(g, pos) % 512 == 0 && g.erasesize % 512 == 0 && g.erasesize >= 1024
  {
    var q, e := pos / g.erasesize, g.erasesize;
    var t := g.totlen / e;
    assert g.totlen == t * e && BlockStart(g, pos) == q * e;
    TimesLess(q, t, e);
    TimesOrder(q + 1, t, e);
    var m := e / 512;
    assert e == 512 * m;
    assert q * e == 512 * (q * m);
  }

  function Mark(g: Geometry, pages: seq<Page>, page: nat): bv8
    requires g.Valid() && page < |pages| && g.cfg.badblockPos != -1
  {
    pages[page][OOB_BLOCK + g.cfg.badblockPos]
  }

  /** The block of `pos` lies outside the device, or its first or second page is marked bad. */
  predicate Bad(g: Geometry, pages: seq<Page>, pos: nat)
    requires g.Fits(pages)
  {
    pos >= g.totlen ||
    (g.cfg.badblockPos != -1 &&
     (BlockInside(g, pos);
      var page := BlockStart(g, pos) / 512;
      Mark(g, pages, page) != 0xff || Mark(g, pages, page + 1) != 0xff))
  }

  /** The number of the first page in the block of `pos`. */
  function FirstPageOf(g: Geometry, pos: nat): (p: nat)
    requires g.Valid()
    ensures p == pos / g.erasesize * (g.erasesize / 512)
  {
    Times(pos / g.erasesize, g.erasesize / 512)
  }

  /** What a bad block is, in bytes: outside the device, or with a byte other than 0xff at the place of the mark in one
      of its first two pages. */
  lemma BadBytes(g: Geometry, pages: seq<Page>, pos: nat)
    requires g.Fits(pages)
    ensures var first := FirstPageOf(g, pos);
            if pos >= g.totlen then Bad(g, pages, pos)
            else
              && first + 1 < |pages|
              && (Bad(g, pages, pos) <==>
                  && g.cfg.badblockPos != -1
                  && (pages[first][OOB_BLOCK + g.cfg.badblockPos] != 0xff ||
                      pages[first + 1][OOB_BLOCK + g.cfg.badblockPos] != 0xff))
  {
    hide BlockStart, ProperSizes, FirstPageOf;
    FirstPage(g, pos);
    if pos < g.totlen {
      BlockInside(g, pos);
    }
  }

  lemma FirstPage(g: Geometry, pos: nat)
    requires g.Valid()
    ensures BlockStart(g, pos) / 512 == FirstPageOf(g, pos) && BlockStart(g, pos) % 512 == 0
  {
    var e := g.erasesize;
    Parts(pos, e);
    Parts(e, 512);
    hide ProperSizes;
    TimesPages(pos / e, e / 512);
  }

  lemma TimesPages(q: nat, m: nat)
    ensures 512 * m * q == 512 * (q * m) && (512 * m * q) / 512 == q * m && (512 * m * q) % 512 == 0
  {
    assert 512 * m * q == 512 * (q * m);
  }

  /** A byte other than 0xff at the place of the mark makes every place of the block bad if it is in one of the first
      two pages of the block; in any other page, and for every other block, it changes nothing. */
  lemma MarkingMakesBad(g: Geometry, pages: seq<Page>, p: nat, marked: Page, pos: nat)
    requires g.Fits(pages) && g.cfg.badblockPos != -1 && p < |pages| && pos < g.totlen
    requires marked[OOB_BLOCK + g.cfg.badblockPos] != 0xff
    ensures var first := FirstPageOf(g, pos);
            if p == first || p == first + 1 then Bad(g, pages[p := marked], pos)
            else Bad(g, pages[p := marked], pos) == Bad(g, pages, pos)
  {
    hide Bad, ProperSizes, FirstPageOf;
    BadBytes(g, pages, pos);
    BadBytes(g, pages[p := marked], pos);
  }

  datatype Mode = Fail | Skip | Fill

  datatype Part = Data(pos: nat, n: nat) | Filled(n: nat)

  /** The parts of a transfer in order, and whether they make up all of it. */
  datatype Course = Course(parts: seq<Part>, complete: bool)

  /** How far a transfer goes in the block of `start`. */
  function Reach(g: Geometry, start: nat, len: nat): (n: nat)
    requires g.Valid() && len > 0
    ensures 0 < n <= len
  {
    Min(len, BlockStart(g, start) + g.erasesize - start)
  }

  /** How many of the blocks from number `b` on are good. */
  function GoodBlocks(g: Geometry, pages: seq<Page>, b: nat): nat
    requires g.Fits(pages)
    decreases g.totlen / g.erasesize - b
  {
    if b >= g.totlen / g.erasesize then 0
    else (if Bad(g, pages, b * g.erasesize) then 0 else 1) + GoodBlocks(g, pages, b + 1)
  }

  /** From `start` on there are enough good blocks for `len` bytes. */
  predicate Enough(g: Geometry, pages: seq<Page>, start: nat, len: nat)
    requires g.Fits(pages)
  {
    len == 0 || start % g.erasesize + len <= g.erasesize * GoodBlocks(g, pages, start / g.erasesize)
  }

  /** Whether the address has to turn round before it comes to a good block. */
  function Rounds(g: Geometry, pages: seq<Page>, start: nat): nat
    requires g.Fits(pages)
  {
    if GoodBlocks(g, pages, start / g.erasesize) == 0 then 1 else 0
  }

  /** The same place in the next block; behind the last address comes the first. */
  function Onward(g: Geometry, start: nat): (next: nat)
    requires g.Valid()
    ensures next < WORD_LIMIT
  {
    (start + g.erasesize) % WORD_LIMIT
  }

  function Before(part: Part, rest: Course): Course {
    Course([part] + rest.parts, rest.complete)
  }

  /** The course of a transfer of `len` bytes from `start`: block by block, where a bad block ends it, is skipped, or
      is filled with ones. Skipping goes on past the end of the device until the address has turned round, and never
      ends if there is no good block at all. */
  function Plan(g: Geometry, pages: seq<Page>, mode: Mode, start: nat, len: nat): Course
    requires g.Fits(pages) && start < WORD_LIMIT
    decreases len, Rounds(g, pages, start), WORD_LIMIT - start
  {
    if len == 0 then Course([], true)
    else
      var n := Reach(g, start, len);
      if !Bad(g, pages, start) then
        Before(Data(start, n), Plan(g, pages, mode, (start + n) % WORD_LIMIT, len - n))
      else match mode
           case Fail => Course([], false)
           case Skip =>
             if GoodBlocks(g, pages, 0) == 0 then Course([], false)
             else
               Nearer(g, pages, start);
               Plan(g, pages, mode, Onward(g, start), len)
           case Fill =>
             Before(Filled(n), Plan(g, pages, mode, (start + n) % WORD_LIMIT, len - n))
  }

  lemma LastBlock(start: nat, e: nat, q: nat, r: nat, a: nat)
    requires start == e * q + r && r < e && start < e * a <= start + e
    ensures q + 1 == a && start + e - e * a == r
  {
    assert e * (q + 1) == e * q + e && e * (q + 2) == e * q + 2 * e;
    TimesLess(q, a, e);
    TimesLess(a, q + 2, e);
  }

  lemma Parts(x: nat, e: nat)
    requires e > 0
    ensures x == e * (x / e) + x % e && x % e < e
  {
  }

  lemma OneOn(start: nat, e: nat)
    requires e > 0
    ensures (start + e) / e == start / e + 1 && (start + e) % e == start % e
  {
    Parts(start, e);
    assert e * (start / e + 1) == e * (start / e) + e;
    DivIs(start + e, e, start / e + 1, start % e);
  }

  lemma RoundTop(start: nat, e: nat, a: nat, t: nat)
    requires 0 < e < e * a && e * t < e * a && start < e * a <= start + e
    ensures start + e - e * a == start % e < e && (start % e) % e == start % e && (start % e) / e == 0
    ensures start >= e * t && start >= e
  {
    Parts(start, e);
    LastBlock(start, e, start / e, start % e, a);
    DivIs(start % e, e, 0, start % e);
    TimesLess(t, a, e);
    TimesOrder(t, start / e, e);
    TimesLess(1, a, e);
    TimesOrder(1, start / e, e);
  }

  lemma Counts(g: Geometry)
    requires g.Valid()
    ensures g.totlen == g.erasesize * (g.totlen / g.erasesize)
    ensures WORD_LIMIT == g.erasesize * (WORD_LIMIT / g.erasesize)
  {
    Parts(g.totlen, g.erasesize);
    Parts(WORD_LIMIT, g.erasesize);
  }

  /** Number and inner place of an address one block on. */
  lemma OnwardBlock(g: Geometry, start: nat)
    requires g.Valid() && start < WORD_LIMIT
    ensures Onward(g, start) % g.erasesize == start % g.erasesize
    ensures start + g.erasesize < WORD_LIMIT ==>
              Onward(g, start) == start + g.erasesize && Onward(g, start) / g.erasesize == start / g.erasesize + 1
    ensures start + g.erasesize >= WORD_LIMIT ==>
              Onward(g, start) < g.erasesize && Onward(g, start) / g.erasesize == 0 && start >= g.totlen
              && start >= g.erasesize
  {
    var e := g.erasesize;
    Counts(g);
    Wrap(start, e);
    if start + e < WORD_LIMIT {
      OneOn(start, e);
    } else {
      RoundTop(start, e, WORD_LIMIT / e, g.totlen / e);
    }
  }

  lemma Wrap(a: nat, b: nat)
    requires a < WORD_LIMIT && b <= WORD_LIMIT
    ensures (a + b) % WORD_LIMIT == if a + b < WORD_LIMIT then a + b else a + b - WORD_LIMIT
  {
  }

  lemma BlocksInside(g: Geometry, pos: nat)
    requires g.Valid()
    ensures pos / g.erasesize < g.totlen / g.erasesize <==> pos < g.totlen
  {
    var e, q, t := g.erasesize, pos / g.erasesize, g.totlen / g.erasesize;
    assert pos == e * q + pos % e && g.totlen == e * t && e * (q + 1) == e * q + e;
    if q < t {
      TimesOrder(q + 1, t, e);
    } else {
      TimesOrder(t, q, e);
    }
  }

  /** The block of `start` and those behind it. */
  lemma GoodFrom(g: Geometry, pages: seq<Page>, start: nat)
    requires g.Fits(pages)
    ensures GoodBlocks(g, pages, start / g.erasesize) ==
            (if Bad(g, pages, start) then 0 else 1) + GoodBlocks(g, pages, start / g.erasesize + 1)
  {
    hide Bad;
    BlocksInside(g, start);
    if start < g.totlen {
      BadBlock(g, pages, start);
      Parts(start, g.erasesize);
    } else {
      Outside(g, pages, start);
    }
  }

  lemma Outside(g: Geometry, pages: seq<Page>, pos: nat)
    requires g.Fits(pages) && pos >= g.totlen
    ensures Bad(g, pages, pos)
  {
  }

  lemma BlockOutside(g: Geometry, pos: nat)
    requires g.Valid()
    ensures BlockStart(g, pos) >= g.totlen <==> pos >= g.totlen
  {
    var q, t, e := pos / g.erasesize, g.totlen / g.erasesize, g.erasesize;
    assert g.totlen == t * e && BlockStart(g, pos) == q * e;
    if pos >= g.totlen {
      assert t * e < (q + 1) * e;
      TimesLess(t, q + 1, e);
      TimesOrder(t, q, e);
    }
  }

  lemma SameBlock(g: Geometry, a: nat, b: nat)
    requires g.Valid() && BlockStart(g, a) <= b < BlockStart(g, a) + g.erasesize
    ensures BlockStart(g, b) == BlockStart(g, a)
  {
    var e, q := g.erasesize, a / g.erasesize;
    assert BlockStart(g, a) == q * e;
    assert b == (b / e) * e + b % e;
    TimesLess(b / e, q + 1, e);
    TimesLess(q, b / e + 1, e);
  }

  /** A block is as bad as any position in it. */
  lemma BadBlock(g: Geometry, pages: seq<Page>, pos: nat)
    requires g.Fits(pages)
    ensures Bad(g, pages, BlockStart(g, pos)) == Bad(g, pages, pos)
  {
    hide BlockStart, Mark;
    SameBlock(g, pos, BlockStart(g, pos));
    BlockOutside(g, pos);
  }

  /** Skipping a bad block comes nearer to a good one. */
  lemma Nearer(g: Geometry, pages: seq<Page>, start: nat)
    requires g.Fits(pages) && start < WORD_LIMIT && Bad(g, pages, start) && GoodBlocks(g, pages, 0) > 0
    ensures var next := Onward(g, start);
            && (Rounds(g, pages, next) < Rounds(g, pages, start)
                || (Rounds(g, pages, next) == Rounds(g, pages, start) && next > start))
            && (start + g.erasesize < WORD_LIMIT ==>
                  GoodBlocks(g, pages, next / g.erasesize) == GoodBlocks(g, pages, start / g.erasesize))
            && (start + g.erasesize >= WORD_LIMIT ==> GoodBlocks(g, pages, start / g.erasesize) == 0)
  {
    hide Bad, Onward;
    OnwardBlock(g, start);
    GoodFrom(g, pages, start);
    BlocksInside(g, start);
  }

  lemma NoPlan(g: Geometry, pages: seq<Page>, mode: Mode, start: nat)
    requires g.Fits(pages) && start < WORD_LIMIT
    ensures Plan(g, pages, mode, start, 0) == Course([], true)
  {
  }

  /** The part in a good block ends inside the device, and where there is more to transfer, in the next block. */
  lemma GoodReach(g: Geometry, pages: seq<Page>, start: nat, len: nat)
    requires g.Fits(pages) && len > 0 && !Bad(g, pages, start)
    ensures start < start + Reach(g, start, len) <= g.totlen < WORD_LIMIT
  {
    hide BlockStart;
    if start >= g.totlen {
      Outside(g, pages, start);
    } else {
      BlockInside(g, start);
    }
  }

  lemma Small(a: nat)
    requires a < WORD_LIMIT
    ensures a % WORD_LIMIT == a
  {
  }

  /** One step of a course. */
  lemma PlanStep(g: Geometry, pages: seq<Page>, mode: Mode, start: nat, len: nat)
    requires g.Fits(pages) && start < WORD_LIMIT && len > 0
    ensures var n := Reach(g, start, len);
            if !Bad(g, pages, start) then
              start + n <= g.totlen &&
              Plan(g, pages, mode, start, len) == Before(Data(start, n), Plan(g, pages, mode, start + n, len - n))
            else match mode
                 case Fail => Plan(g, pages, mode, start, len) == Course([], false)
                 case Skip =>
                   Plan(g, pages, mode, start, len) ==
                   if GoodBlocks(g, pages, 0) == 0 then Course([], false)
                   else Plan(g, pages, mode, Onward(g, start), len)
                 case Fill =>
                   Plan(g, pages, mode, start, len) ==
                   Before(Filled(n), Plan(g, pages, mode, (start + n) % WORD_LIMIT, len - n))
  {
    hide Bad, Reach, Onward, GoodBlocks, Rounds, ProperSizes;
    if !Bad(g, pages, start) {
      GoodReach(g, pages, start, len);
      Small(start + Reach(g, start, len));
    }
  }

  /** Every step leads from page to page. */
  lemma StepAligned(g: Geometry, start: nat, len: nat)
    requires g.Valid() && start < WORD_LIMIT && start % 512 == 0 && len > 0
    ensures Onward(g, start) % 512 == 0
    ensures Reach(g, start, len) < len ==>
              (start + Reach(g, start, len)) % 512 == 0 && (start + Reach(g, start, len)) % WORD_LIMIT % 512 == 0
  {
    hide Reach;
    SumAligned(start, g.erasesize);
    WrapAligned(start + g.erasesize);
    ReachAligned(g, start, len);
    WrapAligned(start + Reach(g, start, len));
  }

  lemma WrapAligned(a: nat)
    ensures a % 512 == 0 ==> a % WORD_LIMIT % 512 == 0
  {
  }

  // ---------------------------------------------------------------- writing and reading along a course

  predicate PartFits(g: Geometry, part: Part)
    requires g.Valid()
  {
    part.Data? ==> part.pos % 512 == 0 && 0 < part.n && part.pos + part.n <= g.totlen
  }

  /** How much of the caller's memory a write along `parts` looks at. */
  function MemoryFor(parts: seq<Part>): nat {
    if parts == [] then 0
    else
      var own, rest := Fetched(parts[0].n), parts[0].n + MemoryFor(parts[1..]);
      if own < rest then rest else own
  }

  function Total(parts: seq<Part>): nat {
    if parts == [] then 0 else parts[0].n + Total(parts[1..])
  }

  ghost predicate AllFit(g: Geometry, parts: seq<Part>)
    requires g.Valid()
  {
    forall part :: part in parts ==> PartFits(g, part)
  }

  /** The pages after writing `mem` along `parts`; the first part that cannot be written is the last tried. */
  ghost function WriteParts(g: Geometry, pages: seq<Page>, parts: seq<Part>, mem: seq<bv8>): (w: Written)
    requires g.Fits(pages) && AllFit(g, parts) && MemoryFor(parts) <= |mem|
    ensures |w.pages| == |pages|
    decreases |parts|
  {
    if parts == [] then Written(pages, true)
    else if parts[0].Filled? then WriteParts(g, pages, parts[1..], mem[parts[0].n..])
    else
      assert parts[0] in parts;
      RoomFor(parts[0].pos, parts[0].n, |pages|);
      var w := WriteChunks(g.cfg, pages, g.worn, parts[0].pos / 512, Chunks(mem, parts[0].n));
      if !w.ok then w else WriteParts(g, w.pages, parts[1..], mem[parts[0].n..])
  }

  datatype Got = Got(data: seq<bv8>, ok: bool)

  function PartData(g: Geometry, pages: seq<Page>, part: Part): (r: seq<bv8>)
    requires g.Fits(pages) && PartFits(g, part)
    ensures |r| == part.n
  {
    match part
    case Filled(n) => Blank(n)
    case Data(pos, n) =>
      RoomFor(pos, n, |pages|);
      ReadData(g.cfg, pages, pos / 512, CeilPages(n))[..n]
  }

  ghost predicate PartFails(g: Geometry, pages: seq<Page>, part: Part)
    requires g.Fits(pages) && PartFits(g, part)
  {
    part.Data? && (RoomFor(part.pos, part.n, |pages|); ReadFails(g.cfg, pages, part.pos / 512, CeilPages(part.n)))
  }

  /** What reading along `parts` yields; the first part with a page that cannot be corrected is the last read. */
  ghost function ReadParts(g: Geometry, pages: seq<Page>, parts: seq<Part>): (r: Got)
    requires g.Fits(pages) && AllFit(g, parts)
    ensures |r.data| <= Total(parts)
    decreases |parts|
  {
    if parts == [] then Got([], true)
    else
      var own := PartData(g, pages, parts[0]);
      if PartFails(g, pages, parts[0]) then Got(own, false)
      else
        var rest := ReadParts(g, pages, parts[1..]);
        Got(own + rest.data, rest.ok)
  }

  // ---------------------------------------------------------------- properties of a course

  ghost predicate InPart(part: Part, p: nat) {
    part.Data? && part.pos / 512 <= p < part.pos / 512 + CeilPages(part.n)
  }

  ghost predicate InParts(parts: seq<Part>, p: nat) {
    exists part :: part in parts && InPart(part, p)
  }

  /** The parts follow one another upwards through the device, none of them before `from`. */
  ghost predicate Ascending(g: Geometry, parts: seq<Part>, from: nat)
    requires g.Valid()
    decreases |parts|
  {
    parts == [] ||
    (PartFits(g, parts[0]) && parts[0].Data? && from <= parts[0].pos &&
     Ascending(g, parts[1..], parts[0].pos + parts[0].n))
  }

  /** The parts lie in blocks that are not bad. */
  ghost predicate InGoodBlocks(g: Geometry, pages: seq<Page>, parts: seq<Part>)
    requires g.Fits(pages)
  {
    forall p :: 0 <= p < |pages| && InParts(parts, p) ==> !Bad(g, pages, p * 512)
  }

  lemma SumAligned(a: nat, b: nat)
    requires a % 512 == 0 && b % 512 == 0
    ensures (a + b) % 512 == 0
  {
  }

  /** Where a part is followed by more, the next block begins. */
  lemma EnoughBehind(g: Geometry, pages: seq<Page>, start: nat, len: nat)
    requires g.Fits(pages) && len > 0 && !Bad(g, pages, start)
    ensures var n := Reach(g, start, len); Enough(g, pages, start, len) <==> Enough(g, pages, start + n, len - n)
  {
    hide Bad;
    var e, n := g.erasesize, Reach(g, start, len);
    var b := start / e;
    GoodFrom(g, pages, start);
    Parts(start, e);
    var more := GoodBlocks(g, pages, b + 1);
    assert e * (1 + more) == e + e * more;
    if n < len {
      assert e * (b + 1) == e * b + e;
      DivIs(start + n, e, b + 1, 0);
    }
  }

  lemma EnoughOnward(g: Geometry, pages: seq<Page>, start: nat, len: nat)
    requires g.Fits(pages) && start < WORD_LIMIT && len > 0 && Bad(g, pages, start) && GoodBlocks(g, pages, 0) > 0
    ensures start + g.erasesize < WORD_LIMIT ==>
              (Enough(g, pages, start, len) <==> Enough(g, pages, Onward(g, start), len))
    ensures start + g.erasesize >= WORD_LIMIT ==> !Enough(g, pages, start, len)
  {
    hide Bad;
    OnwardBlock(g, start);
    Nearer(g, pages, start);
  }

  /** A skipping transfer begins in the first good block that comes, at the place in the block where it started. */
  lemma {:induction false} PlanBegins(g: Geometry, pages: seq<Page>, start: nat, len: nat)
    requires g.Fits(pages) && start < WORD_LIMIT && len > 0 && GoodBlocks(g, pages, 0) > 0
    ensures var parts := Plan(g, pages, Skip, start, len).parts;
            && parts != [] && parts[0].Data? && !Bad(g, pages, parts[0].pos) && parts[0].pos < g.totlen
            && parts[0].pos % g.erasesize == start % g.erasesize
            && forall x: nat :: x >= start && x % g.erasesize == start % g.erasesize && !Bad(g, pages, x) ==>
                                  parts[0].pos <= x
    decreases Rounds(g, pages, start), WORD_LIMIT - start
  {
    hide Bad, Plan, Reach, Onward, GoodBlocks, Rounds;
    PlanStep(g, pages, Skip, start, len);
    if Bad(g, pages, start) {
      Nearer(g, pages, start);
      OnwardBlock(g, start);
      PlanBegins(g, pages, Onward(g, start), len);
      forall x: nat | x >= start && x % g.erasesize == start % g.erasesize && !Bad(g, pages, x)
        ensures start + g.erasesize < WORD_LIMIT && x >= Onward(g, start)
      {
        BlockApart(start, x, g.erasesize);
        if x >= g.totlen {
          Outside(g, pages, x);
        }
      }
    } else {
      GoodReach(g, pages, start, len);
    }
  }

  /** Two places of different blocks, the same way inside, are a block apart. */
  lemma BlockApart(x: nat, y: nat, e: nat)
    requires e > 0 && x % e == y % e && x < y
    ensures x + e <= y
  {
    Parts(x, e);
    Parts(y, e);
    TimesLess(x / e, y / e, e);
    TimesOrder(x / e + 1, y / e, e);
    assert e * (x / e + 1) == e * (x / e) + e;
  }

  /** A transfer that has come past a bad block goes upwards from it exactly if it does so from the next block. */
  lemma AscendingOnward(g: Geometry, pages: seq<Page>, start: nat, parts: seq<Part>)
    requires g.Fits(pages) && start < WORD_LIMIT && Bad(g, pages, start)
    requires parts != [] && parts[0].Data? && !Bad(g, pages, parts[0].pos) && parts[0].pos < g.totlen
    requires parts[0].pos % g.erasesize == start % g.erasesize
    ensures Ascending(g, parts, start) <==> start + g.erasesize < WORD_LIMIT && Ascending(g, parts, Onward(g, start))
  {
    hide Bad;
    OnwardBlock(g, start);
    if start < parts[0].pos {
      BlockApart(start, parts[0].pos, g.erasesize);
    }
  }

  /** A course that ends covers the whole length, and goes upwards from `start` exactly if there are enough good
      blocks ahead; one that does not end has no parts if it skips. */
  lemma {:induction false} PlanAscends(g: Geometry, pages: seq<Page>, mode: Mode, start: nat, len: nat)
    requires g.Fits(pages) && start < WORD_LIMIT && (len > 0 ==> start % 512 == 0) && mode != Fill
    ensures var c := Plan(g, pages, mode, start, len);
            && (c.complete ==> Total(c.parts) == len)
            && (mode == Skip ==> (c.complete <==> len == 0 || GoodBlocks(g, pages, 0) > 0))
            && (Ascending(g, c.parts, start) <==> mode == Fail || c.parts == [] || Enough(g, pages, start, len))
    decreases len, Rounds(g, pages, start), WORD_LIMIT - start
  {
    hide Bad, BlockStart, Reach, Plan, Onward, GoodBlocks, Enough, Rounds;
    if len == 0 {
      NoPlan(g, pages, mode, start);
    } else {
      var n := Reach(g, start, len);
      PlanStep(g, pages, mode, start, len);
      StepAligned(g, start, len);
      if !Bad(g, pages, start) {
        GoodSomewhere(g, pages, start);
        EnoughBehind(g, pages, start, len);
        PlanAscends(g, pages, mode, start + n, len - n);
        var rest := Plan(g, pages, mode, start + n, len - n);
        NoMore(g, pages, mode, start + n, len - n);
        assert Before(Data(start, n), rest).parts[1..] == rest.parts;
      } else if mode == Skip && GoodBlocks(g, pages, 0) > 0 {
        Nearer(g, pages, start);
        PlanBegins(g, pages, start, len);
        EnoughOnward(g, pages, start, len);
        PlanAscends(g, pages, mode, Onward(g, start), len);
        AscendingOnward(g, pages, start, Plan(g, pages, mode, start, len).parts);
      }
    }
  }

  ghost predicate ComesBelow(parts: seq<Part>, bound: nat) {
    exists part :: part in parts && part.Data? && part.pos < bound
  }

  lemma BelowBefore(part: Part, rest: Course, bound: nat)
    ensures ComesBelow(rest.parts, bound) ==> ComesBelow(Before(part, rest).parts, bound)
  {
    if ComesBelow(rest.parts, bound) {
      var low :| low in rest.parts && low.Data? && low.pos < bound;
      assert low in Before(part, rest).parts;
    }
  }

  lemma AtBlockStart(g: Geometry, start: nat, len: nat)
    requires g.Valid() && len > 0 && Reach(g, start, len) < len
    ensures (start + Reach(g, start, len)) % g.erasesize == 0
  {
    var e := g.erasesize;
    Parts(start, e);
    assert e * (start / e + 1) == e * (start / e) + e;
    DivIs(start + Reach(g, start, len), e, start / e + 1, 0);
  }

  /** The place `inner` bytes into the block of a good position is good. */
  lemma SameInner(g: Geometry, pages: seq<Page>, q: nat, inner: nat)
    requires g.Fits(pages) && !Bad(g, pages, q) && inner < g.erasesize
    ensures !Bad(g, pages, BlockStart(g, q) + inner) && (BlockStart(g, q) + inner) % g.erasesize == inner
  {
    hide Bad;
    var e := g.erasesize;
    Parts(q, e);
    DivIs(BlockStart(g, q) + inner, e, q / e, inner);
    SameBlock(g, q, BlockStart(g, q) + inner);
    hide BlockStart;
    BadBlock(g, pages, q);
    BadBlock(g, pages, BlockStart(g, q) + inner);
  }

  /** Without enough good blocks a skipping transfer comes to a place below `bound`, if there is a good block there. */
  lemma {:induction false} ComesBack(g: Geometry, pages: seq<Page>, start: nat, len: nat, bound: nat, q: nat)
    requires g.Fits(pages) && start < WORD_LIMIT && !Enough(g, pages, start, len) && GoodBlocks(g, pages, 0) > 0
    requires !Bad(g, pages, q) && BlockStart(g, q) + (if Bad(g, pages, start) then start % g.erasesize else 0) < bound
    ensures ComesBelow(Plan(g, pages, Skip, start, len).parts, bound)
    decreases len, Rounds(g, pages, start), WORD_LIMIT - start
  {
    hide Bad, BlockStart, Reach, Plan, Onward, GoodBlocks, Rounds, ComesBelow;
    assert len > 0;
    PlanStep(g, pages, Skip, start, len);
    if !Bad(g, pages, start) {
      var n := Reach(g, start, len);
      EnoughBehind(g, pages, start, len);
      AtBlockStart(g, start, len);
      ComesBack(g, pages, start + n, len - n, bound, q);
      BelowBefore(Data(start, n), Plan(g, pages, Skip, start + n, len - n), bound);
    } else {
      var next := Onward(g, start);
      Nearer(g, pages, start);
      OnwardBlock(g, start);
      if start + g.erasesize < WORD_LIMIT {
        EnoughOnward(g, pages, start, len);
        ComesBack(g, pages, next, len, bound, q);
      } else {
        PlanBegins(g, pages, next, len);
        DivIs(next, g.erasesize, 0, next);
        SameInner(g, pages, q, next);
        BeginsBelow(Plan(g, pages, Skip, next, len).parts, bound);
      }
    }
  }

  lemma BeginsBelow(parts: seq<Part>, bound: nat)
    requires parts != [] && parts[0].Data? && parts[0].pos < bound
    ensures ComesBelow(parts, bound)
  {
    assert parts[0] in parts;
  }

  /** A skipping transfer without parts is complete or can never end. */
  lemma NoMore(g: Geometry, pages: seq<Page>, mode: Mode, start: nat, len: nat)
    requires g.Fits(pages) && start < WORD_LIMIT && GoodBlocks(g, pages, 0) > 0
    ensures mode == Skip && Plan(g, pages, mode, start, len).parts == [] ==> len == 0 && Enough(g, pages, start, len)
  {
    if mode == Skip && len > 0 {
      PlanBegins(g, pages, start, len);
    }
  }

  lemma {:induction false} GoodBlocksFall(g: Geometry, pages: seq<Page>, a: nat, b: nat)
    requires g.Fits(pages) && a <= b
    ensures GoodBlocks(g, pages, a) >= GoodBlocks(g, pages, b)
    decreases b - a
  {
    hide Bad;
    if a < b {
      GoodBlocksFall(g, pages, a + 1, b);
    }
  }

  lemma GoodSomewhere(g: Geometry, pages: seq<Page>, pos: nat)
    requires g.Fits(pages) && !Bad(g, pages, pos)
    ensures GoodBlocks(g, pages, 0) > 0
  {
    hide Bad, GoodBlocks;
    GoodFrom(g, pages, pos);
    GoodBlocksFall(g, pages, 0, pos / g.erasesize);
  }

  lemma GoodInside(g: Geometry, pages: seq<Page>, pos: nat)
    requires g.Fits(pages) && !Bad(g, pages, pos)
    ensures pos < g.totlen
  {
  }

  /** No part of a course touches a bad block. */
  lemma {:induction false} PlanInGoodBlocks(g: Geometry, pages: seq<Page>, mode: Mode, start: nat, len: nat)
    requires g.Fits(pages) && start < WORD_LIMIT && (len > 0 ==> start % 512 == 0)
    ensures InGoodBlocks(g, pages, Plan(g, pages, mode, start, len).parts)
    decreases len, Rounds(g, pages, start), WORD_LIMIT - start
  {
    hide Bad, BlockStart, Reach, InPart, Plan, Onward, GoodBlocks, Rounds;
    if len == 0 {
      NoPlan(g, pages, mode, start);
    } else {
      var n := Reach(g, start, len);
      PlanStep(g, pages, mode, start, len);
      StepAligned(g, start, len);
      if !Bad(g, pages, start) {
        PlanInGoodBlocks(g, pages, mode, start + n, len - n);
        var rest := Plan(g, pages, mode, start + n, len - n).parts;
        forall p | 0 <= p < |pages| && InParts([Data(start, n)] + rest, p) ensures !Bad(g, pages, p * 512) {
          var part :| part in [Data(start, n)] + rest && InPart(part, p);
          if part == Data(start, n) {
            PartInBlock(g, pages, start, len, p);
          } else {
            assert InParts(rest, p);
          }
        }
      } else if mode == Skip && GoodBlocks(g, pages, 0) > 0 {
        Nearer(g, pages, start);
        PlanInGoodBlocks(g, pages, mode, Onward(g, start), len);
      } else if mode == Fill {
        PlanInGoodBlocks(g, pages, mode, (start + n) % WORD_LIMIT, len - n);
        var rest := Plan(g, pages, mode, (start + n) % WORD_LIMIT, len - n).parts;
        forall p | 0 <= p < |pages| && InParts([Filled(n)] + rest, p) ensures !Bad(g, pages, p * 512) {
          var part :| part in [Filled(n)] + rest && InPart(part, p);
          NotFilled(part, p);
          assert InParts(rest, p);
        }
      }
    }
  }

  lemma NotFilled(part: Part, p: nat)
    requires InPart(part, p)
    ensures part.Data?
  {
  }

  lemma BlockAligned(g: Geometry, pos: nat)
    requires g.Valid()
    ensures BlockStart(g, pos) % 512 == 0
  {
    var q, e := pos / g.erasesize, g.erasesize;
    var m := e / 512;
    assert BlockStart(g, pos) == q * e && e == 512 * m;
    assert q * e == 512 * (q * m);
  }

  lemma ReachAligned(g: Geometry, start: nat, len: nat)
    requires g.Valid() && len > 0 && start % 512 == 0
    ensures Reach(g, start, len) < len ==> (start + Reach(g, start, len)) % 512 == 0
  {
    hide BlockStart;
    BlockAligned(g, start);
    SumAligned(BlockStart(g, start), g.erasesize);
  }

  lemma PartInBlock(g: Geometry, pages: seq<Page>, start: nat, len: nat, p: nat)
    requires g.Fits(pages) && len > 0 && start % 512 == 0 && !Bad(g, pages, start)
    requires InPart(Data(start, Reach(g, start, len)), p) && p < |pages|
    ensures !Bad(g, pages, p * 512)
  {
    var n := Reach(g, start, len);
    GoodInside(g, pages, start);
    BlockInside(g, start);
    assert BlockStart(g, start) <= p * 512 < BlockStart(g, start) + g.erasesize by {
      hide BlockStart;
      assert p < start / 512 + (n + 511) / 512;
    }
    SameBlock(g, start, p * 512);
    hide BlockStart;
  }

  // ---------------------------------------------------------------- what writing leaves alone

  /** No page changed its bad-block mark. */
  ghost predicate SameMarks(g: Geometry, before: seq<Page>, after: seq<Page>)
    requires g.Valid()
  {
    && |after| == |before|
    && (g.cfg.badblockPos != -1 ==> forall p :: 0 <= p < |before| ==> Mark(g, after, p) == Mark(g, before, p))
  }

  lemma {:induction false} PlanKept(g: Geometry, before: seq<Page>, after: seq<Page>, mode: Mode, start: nat, len: nat)
    requires g.Fits(before) && SameMarks(g, before, after) && start < WORD_LIMIT
    ensures g.Fits(after) && Plan(g, after, mode, start, len) == Plan(g, before, mode, start, len)
    decreases len, Rounds(g, before, start), WORD_LIMIT - start
  {
    hide BlockStart, Reach, Bad, SameMarks, Plan, Onward, GoodBlocks, Rounds;
    BadKept(g, before, after, start);
    if len == 0 {
      NoPlan(g, before, mode, start);
      NoPlan(g, after, mode, start);
    } else {
      var n := Reach(g, start, len);
      PlanStep(g, before, mode, start, len);
      PlanStep(g, after, mode, start, len);
      GoodBlocksKept(g, before, after, 0);
      if !Bad(g, before, start) {
        PlanKept(g, before, after, mode, start + n, len - n);
      } else if mode == Skip && GoodBlocks(g, before, 0) > 0 {
        Nearer(g, before, start);
        PlanKept(g, before, after, mode, Onward(g, start), len);
      } else if mode == Fill {
        PlanKept(g, before, after, mode, (start + n) % WORD_LIMIT, len - n);
      }
    }
  }

  lemma {:induction false} GoodBlocksKept(g: Geometry, before: seq<Page>, after: seq<Page>, b: nat)
    requires g.Fits(before) && SameMarks(g, before, after)
    ensures g.Fits(after) && GoodBlocks(g, after, b) == GoodBlocks(g, before, b)
    decreases g.totlen / g.erasesize - b
  {
    hide Bad, SameMarks;
    BadKept(g, before, after, b * g.erasesize);
    if b < g.totlen / g.erasesize {
      GoodBlocksKept(g, before, after, b + 1);
    }
  }

  lemma BadKept(g: Geometry, before: seq<Page>, after: seq<Page>, pos: nat)
    requires g.Fits(before) && SameMarks(g, before, after)
    ensures g.Fits(after) && Bad(g, after, pos) == Bad(g, before, pos)
  {
    if pos < g.totlen && g.cfg.badblockPos != -1 {
      hide BlockStart, Mark;
      BlockInside(g, pos);
      var page := BlockStart(g, pos) / 512;
      assert Mark(g, after, page) == Mark(g, before, page) && Mark(g, after, page + 1) == Mark(g, before, page + 1);
    }
  }

  /** A write that goes through programs each page with its own chunk and no other page. */
  lemma {:induction false} WriteChunksAt(cfg: OobConfig, pages: seq<Page>, worn: set<nat>, page: nat,
                                         chunks: seq<seq<bv8>>, p: nat)
    requires cfg.Valid() && page + |chunks| <= |pages| && (forall c :: c in chunks ==> |c| <= OOB_BLOCK) && p < |pages|
    ensures var w := WriteChunks(cfg, pages, worn, page, chunks);
            && (!(page <= p < page + |chunks|) ==> w.pages[p] == pages[p])
            && (w.ok && page <= p < page + |chunks| ==>
                  w.pages[p] == Program(pages[p], PageImage(cfg, chunks[p - page])))
            && (w.pages[p] == pages[p] ||
                exists c :: |c| <= OOB_BLOCK && w.pages[p] == Program(pages[p], PageImage(cfg, c)))
    decreases |chunks|
  {
    hide Program, PageImage;
    if chunks != [] {
      var after := pages[page := Program(pages[page], PageImage(cfg, chunks[0]))];
      assert |chunks[0]| <= OOB_BLOCK;
      if page !in worn {
        WriteChunksAt(cfg, after, worn, page + 1, chunks[1..], p);
      }
    }
  }

  /** A page of the range is programmed with its chunk exactly if no page in front of it is worn out: the first one
      whose operation fails is the last one programmed. */
  lemma {:induction false} WriteStops(cfg: OobConfig, pages: seq<Page>, worn: set<nat>, page: nat,
                                      chunks: seq<seq<bv8>>,
                                      p: nat)
    requires cfg.Valid() && page + |chunks| <= |pages| && (forall c :: c in chunks ==> |c| <= OOB_BLOCK)
    requires page <= p < page + |chunks|
    ensures |chunks[p - page]| <= OOB_BLOCK
    ensures WriteChunks(cfg, pages, worn, page, chunks).pages[p] ==
            if forall q :: page <= q < p ==> q !in worn then Program(pages[p], PageImage(cfg, chunks[p - page]))
            else pages[p]
    decreases |chunks|
  {
    hide Program, PageImage;
    var after := pages[page := Program(pages[page], PageImage(cfg, chunks[0]))];
    if page in worn {
    } else if p == page {
      WriteChunksAt(cfg, after, worn, page + 1, chunks[1..], p);
    } else {
      WriteStops(cfg, after, worn, page + 1, chunks[1..], p);
      assert chunks[1..][p - (page + 1)] == chunks[p - page];
    }
  }

  lemma WriteChunksKeepMarks(g: Geometry, pages: seq<Page>, page: nat, chunks: seq<seq<bv8>>)
    requires g.Fits(pages) && page + |chunks| <= |pages| && forall c :: c in chunks ==> |c| <= OOB_BLOCK
    ensures SameMarks(g, pages, WriteChunks(g.cfg, pages, g.worn, page, chunks).pages)
  {
    hide Program, PageImage, WriteChunks;
    var w := WriteChunks(g.cfg, pages, g.worn, page, chunks);
    if g.cfg.badblockPos != -1 {
      forall p | 0 <= p < |pages| ensures Mark(g, w.pages, p) == Mark(g, pages, p) {
        WriteChunksAt(g.cfg, pages, g.worn, page, chunks, p);
        if w.pages[p] != pages[p] {
          var c :| |c| <= OOB_BLOCK && w.pages[p] == Program(pages[p], PageImage(g.cfg, c));
          MarkKept(g.cfg, pages[p], c);
        }
      }
    }
  }

  /** Writing along a course leaves every mark, and every page outside the course, as it was. */
  lemma {:induction false} WritePartsFrame(g: Geometry, pages: seq<Page>, parts: seq<Part>, mem: seq<bv8>)
    requires g.Fits(pages) && AllFit(g, parts) && MemoryFor(parts) <= |mem|
    ensures SameMarks(g, pages, WriteParts(g, pages, parts, mem).pages)
    ensures forall p :: 0 <= p < |pages| && !InParts(parts, p) ==> WriteParts(g, pages, parts, mem).pages[p] == pages[p]
    decreases |parts|
  {
    hide WriteChunks, Chunks, InPart, Mark, MemoryFor;
    if parts != [] {
      MemoryStep(parts);
      forall p | InParts(parts[1..], p) ensures InParts(parts, p) {
        var part :| part in parts[1..] && InPart(part, p);
        assert part in parts;
      }
      if parts[0].Filled? {
        WritePartsFrame(g, pages, parts[1..], mem[parts[0].n..]);
      } else {
        assert parts[0] in parts;
        var first := parts[0].pos / 512;
        RoomFor(parts[0].pos, parts[0].n, |pages|);
        var chunks := Chunks(mem, parts[0].n);
        var w := WriteChunks(g.cfg, pages, g.worn, first, chunks);
        WriteChunksKeepMarks(g, pages, first, chunks);
        forall p | 0 <= p < |pages| && !InParts(parts, p) ensures w.pages[p] == pages[p] {
          WriteChunksAt(g.cfg, pages, g.worn, first, chunks, p);
          OutsidePart(parts[0], p);
        }
        if w.ok {
          WritePartsFrame(g, w.pages, parts[1..], mem[parts[0].n..]);
        }
      }
    }
  }

  lemma MemoryStep(parts: seq<Part>)
    requires parts != []
    ensures Fetched(parts[0].n) <= MemoryFor(parts) && parts[0].n + MemoryFor(parts[1..]) <= MemoryFor(parts)
  {
  }

  lemma OutsidePart(part: Part, p: nat)
    requires part.Data? && !InPart(part, p)
    ensures !(part.pos / 512 <= p < part.pos / 512 + CeilPages(part.n))
  {
  }

  // ---------------------------------------------------------------- reading undoes writing

  /** Page `p` was erased, then programmed with `chunk`, and has since suffered no more than the code can bear. */
  ghost predicate Survives(cfg: OobConfig, before: Page, written: Page, after: Page, chunk: seq<bv8>)
    requires cfg.Valid()
  {
    && |chunk| <= OOB_BLOCK && Erased(cfg, before)
    && written == Program(before, PageImage(cfg, chunk)) && Tolerable(cfg, written, after)
  }

  lemma PageSurvives(cfg: OobConfig, before: Page, written: Page, after: Page, chunk: seq<bv8>)
    requires cfg.Valid() && Survives(cfg, before, written, after, chunk)
    ensures |chunk| <= OOB_BLOCK && PageData(cfg, after) == Padded(chunk) && !PageFails(cfg, after)
  {
    PageRoundTrip(cfg, before, chunk, after);
  }

  ghost predicate AllSurvive(cfg: OobConfig, before: seq<Page>, written: seq<Page>, after: seq<Page>, first: nat,
                             chunks: seq<seq<bv8>>)
    requires cfg.Valid() && first + |chunks| <= |before| == |written| == |after|
  {
    forall i :: 0 <= i < |chunks| ==> Survives(cfg, before[first + i], written[first + i], after[first + i], chunks[i])
  }

  lemma {:induction false} WholePagesRead(cfg: OobConfig, before: seq<Page>, written: seq<Page>, after: seq<Page>,
                                          first: nat, mem: seq<bv8>, n: nat, k: nat)
    requires cfg.Valid() && OOB_BLOCK <= n && Fetched(n) <= |mem| && k <= CeilPages(n)
    requires first + CeilPages(n) <= |before| == |written| == |after|
    requires AllSurvive(cfg, before, written, after, first, Chunks(mem, n))
    ensures k * 512 <= |mem| && ReadData(cfg, after, first, k) == mem[..k * 512] && !ReadFails(cfg, after, first, k)
  {
    hide Survives, PageData, PageFails, ReadFails, Chunks, Fetched, ReadData;
    ReadStart(cfg, after, first, [], 0);
    assert mem[..0] == [];
    if k > 0 {
      WholePagesRead(cfg, before, written, after, first, mem, n, k - 1);
      var i := first + (k - 1);
      ChunkAt(mem, n, k - 1);
      FetchedBound(n, k - 1);
      var chunk := mem[(k - 1) * 512..k * 512];
      assert Survives(cfg, before[i], written[i], after[i], Chunks(mem, n)[k - 1]);
      PageSurvives(cfg, before[i], written[i], after[i], chunk);
      FailsStep(cfg, after, first, k - 1);
      ReadStep(cfg, after, first, k - 1, OOB_BLOCK);
      assert Padded(chunk) == chunk == PageData(cfg, after[i])[..OOB_BLOCK];
      WholeTake(ReadData(cfg, after, first, k - 1), (k - 1) * 512);
      WholeTake(ReadData(cfg, after, first, k), k * 512);
      assert mem[..k * 512] == mem[..(k - 1) * 512] + chunk;
    }
  }

  lemma WholeTake<T>(s: seq<T>, n: nat)
    requires n == |s|
    ensures s[..n] == s
  {
  }

  lemma TakeTwice<T>(s: seq<T>, n: nat, m: nat)
    requires n + m <= |s|
    ensures s[..n] + s[n..][..m] == s[..n + m]
  {
  }

  lemma FetchedBound(n: nat, i: nat)
    requires i < CeilPages(n) && n >= OOB_BLOCK
    ensures i * 512 + 512 <= Fetched(n)
  {
  }

  lemma PartRead(cfg: OobConfig, before: seq<Page>, written: seq<Page>, after: seq<Page>, first: nat, mem: seq<bv8>,
                 n: nat)
    requires cfg.Valid() && Fetched(n) <= |mem| && first + CeilPages(n) <= |before| == |written| == |after|
    requires AllSurvive(cfg, before, written, after, first, Chunks(mem, n))
    ensures ReadData(cfg, after, first, CeilPages(n))[..n] == mem[..n]
    ensures !ReadFails(cfg, after, first, CeilPages(n))
  {
    hide AllSurvive, PageData, PageFails, ReadFails, Chunks, ReadData;
    if n >= OOB_BLOCK {
      WholePagesRead(cfg, before, written, after, first, mem, n, CeilPages(n));
    } else if n > 0 {
      assert CeilPages(n) == 1;
      ShortPartRead(cfg, before, written, after, first, mem, n);
    } else {
      ReadStart(cfg, after, first, [], 0);
    }
  }

  lemma ShortPartRead(cfg: OobConfig, before: seq<Page>, written: seq<Page>, after: seq<Page>, first: nat,
                      mem: seq<bv8>, n: nat)
    requires cfg.Valid() && 0 < n < OOB_BLOCK && n <= |mem| && first + 1 <= |before| == |written| == |after|
    requires AllSurvive(cfg, before, written, after, first, Chunks(mem, n))
    ensures ReadData(cfg, after, first, 1)[..n] == mem[..n]
    ensures !ReadFails(cfg, after, first, 1)
  {
    hide Survives, PageData, PageFails, ReadFails, ReadData;
    assert Survives(cfg, before[first + 0], written[first + 0], after[first + 0], Chunks(mem, n)[0]);
    hide AllSurvive, Chunks, Fetched, CeilPages;
    ChunkAt(mem, n, 0);
    PageSurvives(cfg, before[first], written[first], after[first], mem[..n]);
    ReadStart(cfg, after, first, [], 0);
    FailsStep(cfg, after, first, 0);
    ReadStep(cfg, after, first, 0, n);
    assert PageData(cfg, after[first])[..n] == mem[..n];
  }

  lemma {:induction false} AscendingBeyond(g: Geometry, parts: seq<Part>, from: nat, p: nat)
    requires g.Valid() && Ascending(g, parts, from) && InParts(parts, p)
    ensures from <= p * 512
    decreases |parts|
  {
    var part :| part in parts && InPart(part, p);
    if part != parts[0] {
      hide InPart;
      assert InParts(parts[1..], p);
      AscendingBeyond(g, parts[1..], parts[0].pos + parts[0].n, p);
    }
  }

  lemma BeyondPart(pos: nat, n: nat, p: nat)
    requires pos % 512 == 0 && pos + n <= p * 512
    ensures pos / 512 + CeilPages(n) <= p
  {
  }

  /** Reading along an ascending course undoes writing along it, whatever the pages of the course, erased before, have
      suffered that the code can bear. */
  lemma {:induction false} PartsRoundTrip(g: Geometry, before: seq<Page>, parts: seq<Part>, from: nat, mem: seq<bv8>,
                                          after: seq<Page>)
    requires g.Fits(before) && Ascending(g, parts, from) && AllFit(g, parts) && MemoryFor(parts) <= |mem|
    requires WriteParts(g, before, parts, mem).ok
    requires |after| == |before|
    requires forall p :: 0 <= p < |before| && InParts(parts, p) ==>
                           Erased(g.cfg, before[p])
                           && Tolerable(g.cfg, WriteParts(g, before, parts, mem).pages[p], after[p])
    ensures Total(parts) <= |mem| && ReadParts(g, after, parts) == Got(mem[..Total(parts)], true)
    decreases |parts|
  {
    hide Erased, Tolerable, InParts, Fetched, CeilPages, FirstWritten, WriteParts, ReadParts, MemoryFor, AllSurvive,
      Chunks, PartData, PartFails, AllFit;
    if parts == [] {
      ReadNothing(g, after, mem);
    } else {
      FirstIsData(g, parts, from);
      WritePartsStep(g, before, parts, mem);
      var w := FirstWritten(g, before, parts, mem);
      FirstPartRead(g, before, parts, from, mem, after);
      forall p | 0 <= p < |before| && InParts(parts[1..], p) ensures w.pages[p] == before[p] && InParts(parts, p) {
        LaterUntouched(g, before, parts, from, mem, p);
      }
      PartsRoundTrip(g, w.pages, parts[1..], parts[0].pos + parts[0].n, mem[parts[0].n..], after);
      ReadPartsStep(g, after, parts);
      TakeTwice(mem, parts[0].n, Total(parts[1..]));
    }
  }

  lemma ReadNothing(g: Geometry, pages: seq<Page>, mem: seq<bv8>)
    requires g.Fits(pages)
    ensures AllFit(g, []) && Total([]) == 0 && ReadParts(g, pages, []) == Got(mem[..0], true)
  {
  }

  lemma ReadPartsStep(g: Geometry, pages: seq<Page>, parts: seq<Part>)
    requires g.Fits(pages) && AllFit(g, parts) && parts != []
    ensures PartFits(g, parts[0]) && AllFit(g, parts[1..]) && Total(parts) == parts[0].n + Total(parts[1..])
    ensures !PartFails(g, pages, parts[0]) ==>
              ReadParts(g, pages, parts) ==
              Got(PartData(g, pages, parts[0]) + ReadParts(g, pages, parts[1..]).data,
                  ReadParts(g, pages, parts[1..]).ok)
  {
    hide PartData, PartFails;
    assert parts[0] in parts;
  }

  /** The first part reads back. */
  lemma FirstPartRead(g: Geometry, before: seq<Page>, parts: seq<Part>, from: nat, mem: seq<bv8>, after: seq<Page>)
    requires g.Fits(before) && Ascending(g, parts, from) && AllFit(g, parts) && MemoryFor(parts) <= |mem| && parts != []
    requires WriteParts(g, before, parts, mem).ok
    requires |after| == |before|
    requires forall p :: 0 <= p < |before| && InParts(parts, p) ==>
                           Erased(g.cfg, before[p])
                           && Tolerable(g.cfg, WriteParts(g, before, parts, mem).pages[p], after[p])
    ensures PartFits(g, parts[0]) && parts[0].n <= |mem|
    ensures PartData(g, after, parts[0]) == mem[..parts[0].n] && !PartFails(g, after, parts[0])
  {
    hide Erased, Tolerable, InParts, WriteParts, AllSurvive, Chunks, ReadData, ReadFails, MemoryFor, Ascending;
    assert parts[0] in parts;
    FirstIsData(g, parts, from);
    FirstPartSurvives(g, before, parts, from, mem, after);
    PartRead(g.cfg, before, WriteParts(g, before, parts, mem).pages, after, parts[0].pos / 512, mem, parts[0].n);
  }

  /** Writing the first part leaves the pages of the later ones alone. */
  lemma LaterUntouched(g: Geometry, before: seq<Page>, parts: seq<Part>, from: nat, mem: seq<bv8>, p: nat)
    requires g.Fits(before) && Ascending(g, parts, from) && AllFit(g, parts) && MemoryFor(parts) <= |mem| && parts != []
    requires p < |before| && InParts(parts[1..], p) && parts[0].Data?
    ensures FirstWritten(g, before, parts, mem).pages[p] == before[p] && InParts(parts, p)
  {
    hide InParts, Fetched, CeilPages, FirstWritten, MemoryFor, Chunks;
    LaterParts(parts, p);
    AscendingBeyond(g, parts[1..], parts[0].pos + parts[0].n, p);
    BeyondPart(parts[0].pos, parts[0].n, p);
    FirstWrittenAt(g, before, parts, mem, p);
  }

  lemma LaterParts(parts: seq<Part>, p: nat)
    requires parts != [] && InParts(parts[1..], p)
    ensures InParts(parts, p)
  {
    var part :| part in parts[1..] && InPart(part, p);
    assert part in parts;
  }

  lemma InFirst(parts: seq<Part>, p: nat)
    requires parts != [] && parts[0].Data? && parts[0].pos / 512 <= p < parts[0].pos / 512 + CeilPages(parts[0].n)
    ensures InParts(parts, p)
  {
    assert InPart(parts[0], p);
  }

  lemma LaterPartsApart(g: Geometry, parts: seq<Part>, from: nat, p: nat)
    requires g.Valid() && parts != [] && Ascending(g, parts, from)
    requires p < parts[0].pos / 512 + CeilPages(parts[0].n)
    ensures !InParts(parts[1..], p)
  {
    hide CeilPages, InParts;
    if InParts(parts[1..], p) {
      AscendingBeyond(g, parts[1..], parts[0].pos + parts[0].n, p);
      BeyondPart(parts[0].pos, parts[0].n, p);
    }
  }

  lemma MakeSurvive(cfg: OobConfig, before: Page, written: Page, after: Page, chunk: seq<bv8>)
    requires cfg.Valid() && |chunk| <= OOB_BLOCK && Erased(cfg, before)
    requires written == Program(before, PageImage(cfg, chunk)) && Tolerable(cfg, written, after)
    ensures Survives(cfg, before, written, after, chunk)
  {
  }

  lemma FirstPartSurvives(g: Geometry, before: seq<Page>, parts: seq<Part>, from: nat, mem: seq<bv8>, after: seq<Page>)
    requires g.Fits(before) && Ascending(g, parts, from) && AllFit(g, parts) && MemoryFor(parts) <= |mem| && parts != []
    requires WriteParts(g, before, parts, mem).ok
    requires |after| == |before|
    requires forall p :: 0 <= p < |before| && InParts(parts, p) ==>
                           Erased(g.cfg, before[p])
                           && Tolerable(g.cfg, WriteParts(g, before, parts, mem).pages[p], after[p])
    ensures parts[0].pos / 512 + CeilPages(parts[0].n) <= |before| && Fetched(parts[0].n) <= |mem|
    ensures AllSurvive(g.cfg, before, WriteParts(g, before, parts, mem).pages, after, parts[0].pos / 512,
                       Chunks(mem, parts[0].n))
  {
    hide Erased, Tolerable, Fetched, Chunks, InParts, MemoryFor, AllFit, CeilPages, Survives, WriteParts, FirstWritten,
      AllSurvive, Ascending;
    FirstIsData(g, parts, from);
    var w := FirstWritten(g, before, parts, mem);
    var written := WriteParts(g, before, parts, mem).pages;
    var first, chunks := parts[0].pos / 512, Chunks(mem, parts[0].n);
    forall i | 0 <= i < |chunks|
      ensures Survives(g.cfg, before[first + i], written[first + i], after[first + i], chunks[i])
    {
      var p := first + i;
      InFirst(parts, p);
      assert Erased(g.cfg, before[p]) && Tolerable(g.cfg, written[p], after[p]);
      FirstPageSurvives(g, before, parts, from, mem, after[p], i);
    }
    MakeAllSurvive(g.cfg, before, written, after, first, chunks);
  }

  lemma FirstIsData(g: Geometry, parts: seq<Part>, from: nat)
    requires g.Valid() && Ascending(g, parts, from) && parts != []
    ensures parts[0].Data?
  {
  }

  lemma FirstPageSurvives(g: Geometry, before: seq<Page>, parts: seq<Part>, from: nat, mem: seq<bv8>, after: Page,
                          i: nat)
    requires g.Fits(before) && Ascending(g, parts, from) && AllFit(g, parts) && MemoryFor(parts) <= |mem| && parts != []
    requires WriteParts(g, before, parts, mem).ok && i < CeilPages(parts[0].n)
    requires parts[0].Data? && parts[0].pos / 512 + CeilPages(parts[0].n) <= |before| && Fetched(parts[0].n) <= |mem|
    requires Erased(g.cfg, before[parts[0].pos / 512 + i])
    requires Tolerable(g.cfg, WriteParts(g, before, parts, mem).pages[parts[0].pos / 512 + i], after)
    ensures var p := parts[0].pos / 512 + i;
            Survives(g.cfg, before[p], WriteParts(g, before, parts, mem).pages[p], after, Chunks(mem, parts[0].n)[i])
  {
    hide Erased, Tolerable, Fetched, Chunks, Program, PageImage, InParts, MemoryFor, AllFit, CeilPages, Survives,
      WriteParts, Ascending;
    var p := parts[0].pos / 512 + i;
    FirstPageWritten(g, before, parts, from, mem, i);
    MakeSurvive(g.cfg, before[p], WriteParts(g, before, parts, mem).pages[p], after, Chunks(mem, parts[0].n)[i]);
  }

  /** What the first part put into a page stays there while the later parts are written. */
  lemma FirstPageWritten(g: Geometry, before: seq<Page>, parts: seq<Part>, from: nat, mem: seq<bv8>, i: nat)
    requires g.Fits(before) && Ascending(g, parts, from) && AllFit(g, parts) && MemoryFor(parts) <= |mem| && parts != []
    requires WriteParts(g, before, parts, mem).ok && i < CeilPages(parts[0].n)
    requires parts[0].Data? && parts[0].pos / 512 + CeilPages(parts[0].n) <= |before| && Fetched(parts[0].n) <= |mem|
    ensures var p, chunk := parts[0].pos / 512 + i, Chunks(mem, parts[0].n)[i];
            && |chunk| <= OOB_BLOCK
            && WriteParts(g, before, parts, mem).pages[p] == Program(before[p], PageImage(g.cfg, chunk))
  {
    hide Fetched, Chunks, Program, PageImage, InParts, MemoryFor, AllFit, CeilPages, WriteParts, FirstWritten,
      Ascending;
    var p := parts[0].pos / 512 + i;
    var w := FirstWritten(g, before, parts, mem);
    WritePartsStep(g, before, parts, mem);
    LaterPartsApart(g, parts, from, p);
    WriteElsewhere(g, w.pages, parts[1..], mem[parts[0].n..], p);
    FirstWrittenAt(g, before, parts, mem, p);
  }

  lemma WriteElsewhere(g: Geometry, pages: seq<Page>, parts: seq<Part>, mem: seq<bv8>, p: nat)
    requires g.Fits(pages) && AllFit(g, parts) && MemoryFor(parts) <= |mem| && p < |pages| && !InParts(parts, p)
    ensures WriteParts(g, pages, parts, mem).pages[p] == pages[p]
  {
    hide WriteParts, InParts, MemoryFor, AllFit;
    WritePartsFrame(g, pages, parts, mem);
  }

  lemma MakeAllSurvive(cfg: OobConfig, before: seq<Page>, written: seq<Page>, after: seq<Page>, first: nat,
                       chunks: seq<seq<bv8>>)
    requires cfg.Valid() && first + |chunks| <= |before| == |written| == |after|
    requires forall i :: 0 <= i < |chunks| ==>
                           Survives(cfg, before[first + i], written[first + i], after[first + i], chunks[i])
    ensures AllSurvive(cfg, before, written, after, first, chunks)
  {
  }

  /** The pages after writing the first of several parts. */
  function FirstWritten(g: Geometry, pages: seq<Page>, parts: seq<Part>, mem: seq<bv8>): (w: Written)
    requires g.Fits(pages) && AllFit(g, parts) && MemoryFor(parts) <= |mem| && parts != [] && parts[0].Data?
    ensures |w.pages| == |pages|
    ensures parts[0].pos / 512 + CeilPages(parts[0].n) <= |pages| && Fetched(parts[0].n) <= |mem|
  {
    assert parts[0] in parts;
    RoomFor(parts[0].pos, parts[0].n, |pages|);
    WriteChunks(g.cfg, pages, g.worn, parts[0].pos / 512, Chunks(mem, parts[0].n))
  }

  lemma FirstWrittenAt(g: Geometry, pages: seq<Page>, parts: seq<Part>, mem: seq<bv8>, p: nat)
    requires g.Fits(pages) && AllFit(g, parts) && MemoryFor(parts) <= |mem| && parts != [] && parts[0].Data?
    requires p < |pages|
    ensures var w, first, chunks := FirstWritten(g, pages, parts, mem), parts[0].pos / 512, Chunks(mem, parts[0].n);
            && (!(first <= p < first + |chunks|) ==> w.pages[p] == pages[p])
            && (w.ok && first <= p < first + |chunks| ==>
                  |chunks[p - first]| <= OOB_BLOCK
                  && w.pages[p] == Program(pages[p], PageImage(g.cfg, chunks[p - first])))
  {
    hide WriteChunks, Chunks, Program, PageImage, MemoryFor, AllFit;
    var w := FirstWritten(g, pages, parts, mem);
    WriteChunksAt(g.cfg, pages, g.worn, parts[0].pos / 512, Chunks(mem, parts[0].n), p);
  }

  lemma WritePartsStep(g: Geometry, pages: seq<Page>, parts: seq<Part>, mem: seq<bv8>)
    requires g.Fits(pages) && AllFit(g, parts) && MemoryFor(parts) <= |mem| && parts != [] && parts[0].Data?
    ensures AllFit(g, parts[1..]) && MemoryFor(parts[1..]) <= |mem| - parts[0].n
    ensures var w := FirstWritten(g, pages, parts, mem);
            WriteParts(g, pages, parts, mem) ==
            if !w.ok then w else WriteParts(g, w.pages, parts[1..], mem[parts[0].n..])
  {
    hide WriteChunks, Chunks;
    MemoryStep(parts);
  }
}
