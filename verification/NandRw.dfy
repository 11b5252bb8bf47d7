/** A transfer as a whole: what `nand_rw` leaves behind, and that a skipping read undoes a skipping write
    (u-boot-v1.2/common/cmd_nand.c). */
module NandRw {
  import opened Basics
  import opened NandEcc
  import opened NandEccTheorems
  import opened NandPage
  import opened NandTransfer

  // ---------------------------------------------------------------- a transfer as a whole

  /** Every part of a course fits the device, in every mode. */
  lemma {:induction false} PlanFits(g: Geometry, pages: seq<Page>, mode: Mode, start: nat, len: nat)
    requires g.Fits(pages) && start < WORD_LIMIT && (len > 0 ==> start % 512 == 0)
    ensures AllFit(g, Plan(g, pages, mode, start, len).parts)
    ensures Total(Plan(g, pages, mode, start, len).parts) <= len
    decreases len, Rounds(g, pages, start), WORD_LIMIT - start
  {
    hide Bad, BlockStart, Reach, AllFit, PartFits, Total, Plan, Onward, GoodBlocks, Rounds;
    NothingFits(g);
    if len == 0 {
      NoPlan(g, pages, mode, start);
    } else {
      var n := Reach(g, start, len);
      PlanStep(g, pages, mode, start, len);
      StepAligned(g, start, len);
      if !Bad(g, pages, start) {
        PlanFits(g, pages, mode, start + n, len - n);
        OneMoreFits(g, Data(start, n), Plan(g, pages, mode, start + n, len - n).parts);
      } else if mode == Fill {
        var next := (start + n) % WORD_LIMIT;
        PlanFits(g, pages, mode, next, len - n);
        OneMoreFits(g, Filled(n), Plan(g, pages, mode, next, len - n).parts);
      } else if mode == Skip && GoodBlocks(g, pages, 0) > 0 {
        Nearer(g, pages, start);
        PlanFits(g, pages, mode, Onward(g, start), len);
      }
    }
  }

  lemma NothingFits(g: Geometry)
    requires g.Valid()
    ensures AllFit(g, []) && Total([]) == 0
  {
  }

  lemma OneMoreFits(g: Geometry, part: Part, rest: seq<Part>)
    requires g.Valid() && AllFit(g, rest)
    requires part.Data? ==> part.pos % 512 == 0 && 0 < part.n && part.pos + part.n <= g.totlen
    ensures AllFit(g, [part] + rest) && Total([part] + rest) == part.n + Total(rest)
  {
    assert ([part] + rest)[1..] == rest;
  }

  /** How many bytes too many are looked at to write the last part: the rest of its last page, if the part is a page or
      longer. */
  function Overlooked(parts: seq<Part>): nat {
    if parts == [] then 0
    else
      var n := parts[|parts| - 1].n;
      if n >= 512 && n % 512 != 0 then 512 - n % 512 else 0
  }

  lemma FetchedExactly(n: nat)
    ensures Fetched(n) == n + if n >= 512 && n % 512 != 0 then 512 - n % 512 else 0
  {
  }

  lemma OneMorePart(part: Part, rest: Course)
    requires rest.parts != [] ==> part.n % 512 == 0
    requires MemoryFor(rest.parts) == Total(rest.parts) + Overlooked(rest.parts)
    ensures var parts := Before(part, rest).parts; MemoryFor(parts) == Total(parts) + Overlooked(parts)
  {
    var parts := Before(part, rest).parts;
    assert parts[1..] == rest.parts;
    FetchedExactly(part.n);
    if rest.parts != [] {
      assert parts[|parts| - 1] == rest.parts[|rest.parts| - 1];
    }
  }

  lemma NoParts(parts: seq<Part>)
    ensures parts == [] ==> MemoryFor(parts) == 0 && Total(parts) == 0 && Overlooked(parts) == 0
  {
  }

  lemma PagesBetween(start: nat, n: nat)
    requires start % 512 == 0
    ensures (start + n) % 512 == 0 ==> n % 512 == 0
  {
  }

  /** A write looks at more of the caller's memory than it writes exactly if its last part is longer than a page and
      does not end with one; then it looks at the rest of that page. */
  lemma {:induction false} MemoryExactly(g: Geometry, pages: seq<Page>, mode: Mode, start: nat, len: nat)
    requires g.Fits(pages) && start < WORD_LIMIT && (len > 0 ==> start % 512 == 0) && mode != Fill
    ensures var parts := Plan(g, pages, mode, start, len).parts; MemoryFor(parts) == Total(parts) + Overlooked(parts)
    decreases len, Rounds(g, pages, start), WORD_LIMIT - start
  {
    hide Bad, BlockStart, Reach, Plan, Onward, GoodBlocks, Rounds, MemoryFor, Total, Overlooked;
    NoParts([]);
    if len == 0 {
      NoPlan(g, pages, mode, start);
    } else {
      var n := Reach(g, start, len);
      PlanStep(g, pages, mode, start, len);
      StepAligned(g, start, len);
      if !Bad(g, pages, start) {
        MemoryExactly(g, pages, mode, start + n, len - n);
        NoPlan(g, pages, mode, start + n);
        PagesBetween(start, n);
        OneMorePart(Data(start, n), Plan(g, pages, mode, start + n, len - n));
      } else if mode == Skip && GoodBlocks(g, pages, 0) > 0 {
        Nearer(g, pages, start);
        MemoryExactly(g, pages, mode, Onward(g, start), len);
      }
    }
  }

  /** How long the part of a transfer in its last block is. */
  function Tail(g: Geometry, start: nat, len: nat): nat
    requires g.Valid()
  {
    var inner := start % g.erasesize;
    if inner + len <= g.erasesize then len else (inner + len - 1) % g.erasesize + 1
  }

  lemma TailBehind(g: Geometry, start: nat, len: nat)
    requires g.Valid() && len > 0
    ensures var n := Reach(g, start, len);
            Tail(g, start, len) == if n == len then n else Tail(g, start + n, len - n)
  {
    var e, n := g.erasesize, Reach(g, start, len);
    var inner := start % e;
    if n < len {
      AtBlockStart(g, start, len);
      var left := len - n;
      Parts(left - 1, e);
      assert e * ((left - 1) / e + 1) == e * ((left - 1) / e) + e;
      DivIs(inner + len - 1, e, (left - 1) / e + 1, (left - 1) % e);
      if left <= e {
        DivIs(left - 1, e, 0, left - 1);
      }
    }
  }

  /** The last part of a transfer that ends. */
  lemma {:induction false} LastPart(g: Geometry, pages: seq<Page>, mode: Mode, start: nat, len: nat)
    requires g.Fits(pages) && start < WORD_LIMIT && len > 0 && mode != Fill && Plan(g, pages, mode, start, len).complete
    ensures var parts := Plan(g, pages, mode, start, len).parts;
            parts != [] && parts[|parts| - 1].n == Tail(g, start, len)
    decreases len, Rounds(g, pages, start), WORD_LIMIT - start
  {
    hide Bad, BlockStart, Reach, Plan, Onward, GoodBlocks, Rounds, Tail, ProperSizes;
    var n := Reach(g, start, len);
    PlanStep(g, pages, mode, start, len);
    if !Bad(g, pages, start) {
      TailBehind(g, start, len);
      GoodReach(g, pages, start, len);
      var rest := Plan(g, pages, mode, start + n, len - n);
      if n == len {
        NoPlan(g, pages, mode, start + n);
      } else {
        LastPart(g, pages, mode, start + n, len - n);
        assert Before(Data(start, n), rest).parts[|rest.parts|] == rest.parts[|rest.parts| - 1];
      }
    } else {
      Nearer(g, pages, start);
      OnwardBlock(g, start);
      TailInner(g, start, Onward(g, start), len);
      LastPart(g, pages, mode, Onward(g, start), len);
    }
  }

  lemma TailInner(g: Geometry, a: nat, b: nat, len: nat)
    requires g.Valid() && a % g.erasesize == b % g.erasesize
    ensures Tail(g, a, len) == Tail(g, b, len)
  {
  }

  /** The same in terms of what a caller knows: a transfer that ends looks at more memory than its length exactly if the
      length is not one of whole pages and its part in the last block is a page or longer. */
  lemma MemoryByLength(g: Geometry, pages: seq<Page>, mode: Mode, start: nat, len: nat)
    requires g.Fits(pages) && start < WORD_LIMIT && start % 512 == 0 && mode != Fill
    requires Plan(g, pages, mode, start, len).complete
    ensures MemoryFor(Plan(g, pages, mode, start, len).parts) ==
            len + if len % 512 != 0 && Tail(g, start, len) >= 512 then 512 - len % 512 else 0
  {
    hide Plan, MemoryFor, Tail, Total, Ascending, Bad, Enough, GoodBlocks;
    PlanAscends(g, pages, mode, start, len);
    MemoryExactly(g, pages, mode, start, len);
    if len == 0 {
      NoPlan(g, pages, mode, start);
      NoParts([]);
    } else {
      LastPart(g, pages, mode, start, len);
      TailAligned(g, start, len);
    }
  }

  lemma TailAligned(g: Geometry, start: nat, len: nat)
    requires g.Valid() && start % 512 == 0 && len > 0
    ensures Tail(g, start, len) % 512 == len % 512
  {
    var e, inner := g.erasesize, start % g.erasesize;
    Parts(start, e);
    PageMultiple(e, start / e);
    hide ProperSizes;
    if inner + len > e {
      var x := inner + len - 1;
      Parts(x, e);
      PageMultiple(e, x / e);
      SameRemainder(x % e + 1, len, e * (x / e), e * (start / e), start);
    }
  }

  lemma PageMultiple(e: nat, q: nat)
    requires e % 512 == 0
    ensures (e * q) % 512 == 0
  {
    var m := e / 512;
    assert e * q == 512 * (m * q);
  }

  lemma SameRemainder(tail: nat, len: nat, p: nat, q: nat, start: nat)
    requires start % 512 == 0 && p % 512 == 0 && q % 512 == 0 && start - q + len == p + tail
    ensures tail % 512 == len % 512
  {
  }

  /** A transfer of whole pages looks at no more memory than its length. */
  lemma {:induction false} MemoryWhole(g: Geometry, pages: seq<Page>, mode: Mode, start: nat, len: nat)
    requires g.Fits(pages) && start < WORD_LIMIT && start % 512 == 0 && len % 512 == 0
    ensures MemoryFor(Plan(g, pages, mode, start, len).parts) <= len
    decreases len, Rounds(g, pages, start), WORD_LIMIT - start
  {
    hide Bad, BlockStart, Reach, Plan, Onward, GoodBlocks, Rounds, MemoryFor, Fetched, ProperSizes;
    NoParts([]);
    if len == 0 {
      NoPlan(g, pages, mode, start);
    } else {
      var n := Reach(g, start, len);
      PlanStep(g, pages, mode, start, len);
      StepAligned(g, start, len);
      WholeReach(start, len, n);
      if !Bad(g, pages, start) || mode == Fill {
        var next := (start + n) % WORD_LIMIT;
        WrapAligned(start + n);
        if !Bad(g, pages, start) {
          GoodReach(g, pages, start, len);
          Small(start + n);
        }
        MemoryWhole(g, pages, mode, next, len - n);
        var part := if Bad(g, pages, start) then Filled(n) else Data(start, n);
        OneMoreWhole(part, Plan(g, pages, mode, next, len - n), len);
      } else if mode == Skip && GoodBlocks(g, pages, 0) > 0 {
        Nearer(g, pages, start);
        MemoryWhole(g, pages, mode, Onward(g, start), len);
      }
    }
  }

  lemma OneMoreWhole(part: Part, rest: Course, len: nat)
    requires Fetched(part.n) == part.n && part.n + MemoryFor(rest.parts) <= len
    ensures MemoryFor(Before(part, rest).parts) <= len
  {
    assert Before(part, rest).parts[1..] == rest.parts;
  }

  lemma WholeReach(start: nat, len: nat, n: nat)
    requires start % 512 == 0 && len % 512 == 0 && n <= len && (n < len ==> (start + n) % 512 == 0)
    ensures n % 512 == 0 && (len - n) % 512 == 0 && (start + n) % 512 == 0 && Fetched(n) == n
  {
  }

  // ---------------------------------------------------------------- one step of a transfer

  /** After the part at `start` or the skipping of its block, a transfer is in another block. */
  lemma NextBlock(g: Geometry, start: nat, len: nat)
    requires g.Valid() && start < WORD_LIMIT && len > 0
    ensures var n := Reach(g, start, len);
            n < len ==> start + n <= WORD_LIMIT && BlockStart(g, (start + n) % WORD_LIMIT) != BlockStart(g, start)
    ensures BlockStart(g, Onward(g, start)) != BlockStart(g, start)
  {
    hide ProperSizes, Onward, BlockStart;
    BlockBehind(g, start);
    OnwardBlock(g, start);
    BlockTop(g, start);
    BlockNotFirst(g, start);
    BlockIsNot(g, start, Onward(g, start));
  }

  /** The place behind a block, where the address may have turned round, is not in it. */
  lemma BlockBehind(g: Geometry, start: nat)
    requires g.Valid() && start < WORD_LIMIT
    ensures var next := BlockStart(g, start) + g.erasesize;
            next <= WORD_LIMIT && BlockStart(g, next % WORD_LIMIT) != BlockStart(g, start)
  {
    BlockTop(g, start);
    var next := BlockStart(g, start) + g.erasesize;
    assert g.erasesize < WORD_LIMIT;
    hide ProperSizes, BlockStart;
    if next < WORD_LIMIT {
      Small(next);
      BlockIsNot(g, start, next);
    } else {
      BlockIsNot(g, start, 0);
    }
  }

  lemma BlockNotFirst(g: Geometry, start: nat)
    requires g.Valid()
    ensures start >= g.erasesize ==> BlockStart(g, start) >= g.erasesize
  {
    var e := g.erasesize;
    Parts(start, e);
    if start >= e {
      assert e * (start / e + 1) == e * (start / e) + e;
      TimesLess(1, start / e + 1, e);
      TimesOrder(1, start / e, e);
    }
  }

  /** Places that are not in the block of `a`. */
  lemma BlockIsNot(g: Geometry, a: nat, b: nat)
    requires g.Valid() && !(BlockStart(g, a) <= b < BlockStart(g, a) + g.erasesize)
    ensures BlockStart(g, b) != BlockStart(g, a)
  {
  }

  /** Blocks end within the addresses. */
  lemma BlockTop(g: Geometry, start: nat)
    requires g.Valid() && start < WORD_LIMIT
    ensures BlockStart(g, start) + g.erasesize <= WORD_LIMIT
  {
    var e := g.erasesize;
    Counts(g);
    Parts(start, e);
    TimesLess(start / e, WORD_LIMIT / e, e);
    TimesOrder(start / e + 1, WORD_LIMIT / e, e);
    assert e * (start / e + 1) == e * (start / e) + e;
  }

  // ---------------------------------------------------------------- the outcome of a transfer from where it stands

  /** The pages, the caller's memory and the return value a transfer ends with, and where in the memory it has come to;
      a part that fails does not count. */
  datatype Outcome = Outcome(pages: seq<Page>, buf: seq<bv8>, ret: int, at: nat)

  /** A transfer: what it does, in which mode, and whether the chip is write protected. */
  datatype Job = Job(g: Geometry, isRead: bool, mode: Mode, locked: bool)

  /** The caller's memory from `at` on is large enough. */
  ghost predicate Room(j: Job, pages: seq<Page>, start: nat, len: nat, buf: seq<bv8>, at: nat) {
    && j.g.Fits(pages) && start < WORD_LIMIT && (len > 0 ==> start % 512 == 0) && (j.mode == Fill ==> j.isRead)
    && at + (if j.isRead then len else MemoryFor(Plan(j.g, pages, j.mode, start, len).parts)) <= |buf|
  }

  function EndCode(ok: bool, complete: bool): int {
    if !ok then -1 else if complete then 0 else 1
  }

  /** How many bytes are read along `parts` before a part fails. */
  ghost function ReadCount(g: Geometry, pages: seq<Page>, parts: seq<Part>): (n: nat)
    requires g.Fits(pages) && AllFit(g, parts)
    ensures ReadParts(g, pages, parts).ok ==> n == Total(parts)
    decreases |parts|
  {
    if parts == [] || PartFails(g, pages, parts[0]) then 0 else parts[0].n + ReadCount(g, pages, parts[1..])
  }

  /** How many bytes are written along `parts` before a part fails. */
  ghost function WriteCount(g: Geometry, pages: seq<Page>, parts: seq<Part>, mem: seq<bv8>): (n: nat)
    requires g.Fits(pages) && AllFit(g, parts) && MemoryFor(parts) <= |mem|
    ensures WriteParts(g, pages, parts, mem).ok ==> n == Total(parts)
    decreases |parts|
  {
    if parts == [] then 0
    else if parts[0].Filled? then parts[0].n + WriteCount(g, pages, parts[1..], mem[parts[0].n..])
    else
      var w := FirstWritten(g, pages, parts, mem);
      WritePartsStep(g, pages, parts, mem);
      if !w.ok then 0 else parts[0].n + WriteCount(g, w.pages, parts[1..], mem[parts[0].n..])
  }

  /** The outcome of transferring the parts of a course. */
  ghost function FinishParts(j: Job, pages: seq<Page>, c: Course, buf: seq<bv8>, at: nat): Outcome
    requires j.g.Fits(pages) && AllFit(j.g, c.parts)
    requires at + (if j.isRead then Total(c.parts) else MemoryFor(c.parts)) <= |buf|
  {
    if j.isRead then
      var got := ReadParts(j.g, pages, c.parts);
      Outcome(pages, Splice(buf, at, got.data), EndCode(got.ok, c.complete), at + ReadCount(j.g, pages, c.parts))
    else if j.locked then Outcome(pages, buf, EndCode(c.parts == [], c.complete), at)
    else
      var w := WriteParts(j.g, pages, c.parts, buf[at..]);
      Outcome(w.pages, buf, EndCode(w.ok, c.complete), at + WriteCount(j.g, pages, c.parts, buf[at..]))
  }

  ghost function Finish(j: Job, pages: seq<Page>, start: nat, len: nat, buf: seq<bv8>, at: nat): (o: Outcome)
    requires Room(j, pages, start, len, buf, at)
    ensures |o.pages| == |pages| && |o.buf| == |buf|
  {
    PlanFits(j.g, pages, j.mode, start, len);
    FinishParts(j, pages, Plan(j.g, pages, j.mode, start, len), buf, at)
  }

  lemma FinishEnd(j: Job, pages: seq<Page>, start: nat, buf: seq<bv8>, at: nat)
    requires Room(j, pages, start, 0, buf, at)
    ensures Finish(j, pages, start, 0, buf, at) == Outcome(pages, buf, 0, at)
  {
  }

  /** At a bad block a transfer ends, or goes on in the next block. */
  lemma FinishBad(j: Job, pages: seq<Page>, start: nat, len: nat, buf: seq<bv8>, at: nat)
    requires Room(j, pages, start, len, buf, at) && len > 0 && Bad(j.g, pages, start)
    ensures j.mode == Fail ==> Finish(j, pages, start, len, buf, at) == Outcome(pages, buf, 1, at)
    ensures j.mode == Skip && GoodBlocks(j.g, pages, 0) > 0 ==>
              && Room(j, pages, Onward(j.g, start), len, buf, at)
              && Finish(j, pages, start, len, buf, at) == Finish(j, pages, Onward(j.g, start), len, buf, at)
  {
    hide Bad, Reach, Plan, AllFit, BlockStart, GoodBlocks, Onward;
    PlanStep(j.g, pages, j.mode, start, len);
    StepAligned(j.g, start, len);
  }

  /** A transfer ends as it would end from a second place. */
  ghost predicate EndsLike(j: Job, pages: seq<Page>, start: nat, len: nat, buf: seq<bv8>, at: nat,
                           start2: nat, len2: nat, buf2: seq<bv8>, at2: nat)
    requires Room(j, pages, start, len, buf, at)
  {
    && Room(j, pages, start2, len2, buf2, at2)
    && Finish(j, pages, start, len, buf, at) == Finish(j, pages, start2, len2, buf2, at2)
  }

  lemma FinishFilled(j: Job, pages: seq<Page>, start: nat, len: nat, buf: seq<bv8>, at: nat)
    requires Room(j, pages, start, len, buf, at) && len > 0 && Bad(j.g, pages, start) && j.mode == Fill && j.isRead
    ensures var n := Reach(j.g, start, len);
            && at + n <= |buf|
            && EndsLike(j, pages, start, len, buf, at, (start + n) % WORD_LIMIT, len - n, Splice(buf, at, Blank(n)),
                        at + n)
  {
    hide Bad, Reach, Splice, Plan, FinishParts, AllFit;
    PlanStep(j.g, pages, j.mode, start, len);
    StepAligned(j.g, start, len);
    var n := Reach(j.g, start, len);
    var next := (start + n) % WORD_LIMIT;
    PlanFits(j.g, pages, j.mode, start, len);
    PlanFits(j.g, pages, j.mode, next, len - n);
    ReadFirst(j, pages, Filled(n), Plan(j.g, pages, j.mode, next, len - n), buf, at);
  }

  lemma ReadFirst(j: Job, pages: seq<Page>, part: Part, rest: Course, buf: seq<bv8>, at: nat)
    requires j.isRead && j.g.Fits(pages) && AllFit(j.g, [part] + rest.parts) && AllFit(j.g, rest.parts)
    requires at + part.n + Total(rest.parts) <= |buf|
    ensures PartFits(j.g, part) && Total([part] + rest.parts) == part.n + Total(rest.parts)
    ensures var after := Splice(buf, at, PartData(j.g, pages, part));
            FinishParts(j, pages, Course([part] + rest.parts, rest.complete), buf, at) ==
            if PartFails(j.g, pages, part) then Outcome(pages, after, -1, at)
            else FinishParts(j, pages, rest, after, at + part.n)
  {
    hide PartData, PartFails, Splice, PartFits;
    var parts := [part] + rest.parts;
    assert parts[0] == part && parts[1..] == rest.parts;
    assert part in parts;
    SpliceTwice(buf, at, PartData(j.g, pages, part), ReadParts(j.g, pages, rest.parts).data);
  }

  lemma WriteFirst(j: Job, pages: seq<Page>, pos: nat, n: nat, rest: Course, buf: seq<bv8>, at: nat)
    requires !j.isRead && !j.locked
    requires j.g.Fits(pages) && AllFit(j.g, [Data(pos, n)] + rest.parts) && AllFit(j.g, rest.parts)
    requires at + MemoryFor([Data(pos, n)] + rest.parts) <= |buf| && pos / 512 + CeilPages(n) <= |pages|
    ensures at + Fetched(n) <= |buf| && at + n + MemoryFor(rest.parts) <= |buf|
    ensures var w := WriteChunks(j.g.cfg, pages, j.g.worn, pos / 512, Chunks(buf[at..], n));
            && SameMarks(j.g, pages, w.pages) && j.g.Fits(w.pages)
            && FinishParts(j, pages, Course([Data(pos, n)] + rest.parts, rest.complete), buf, at) ==
               if !w.ok then Outcome(w.pages, buf, -1, at) else FinishParts(j, w.pages, rest, buf, at + n)
  {
    hide WriteChunks, Chunks, MemoryFor, WriteParts, AllFit, SameMarks, ProperSizes;
    var parts := [Data(pos, n)] + rest.parts;
    assert parts[1..] == rest.parts && parts[0] == Data(pos, n);
    MemoryStep(parts);
    WritePartsStep(j.g, pages, parts, buf[at..]);
    WriteChunksKeepMarks(j.g, pages, pos / 512, Chunks(buf[at..], n));
    MarksFit(j.g, pages, WriteChunks(j.g.cfg, pages, j.g.worn, pos / 512, Chunks(buf[at..], n)).pages);
    assert buf[at..][n..] == buf[at + n..];
  }

  /** What reading or writing the `n` bytes from `start`, in one good block, does. */
  ghost predicate Moved(j: Job, pages: seq<Page>, start: nat, n: nat, buf: seq<bv8>, at: nat, o: Outcome)
  {
    && j.g.Fits(pages) && start / 512 + CeilPages(n) <= |pages|
    && at + (if j.isRead then n else Fetched(n)) <= |buf| && o.at == at
    && if j.isRead then
         && o.pages == pages && o.buf == Splice(buf, at, ReadData(j.g.cfg, pages, start / 512, CeilPages(n))[..n])
         && o.ret == if ReadFails(j.g.cfg, pages, start / 512, CeilPages(n)) then -1 else 0
       else if j.locked then o == Outcome(pages, buf, -1, at)
       else
         && o.buf == buf && o.ret in {0, -1}
         && Written(o.pages, o.ret == 0) == WriteChunks(j.g.cfg, pages, j.g.worn, start / 512, Chunks(buf[at..], n))
  }

  lemma RoomForPart(j: Job, pages: seq<Page>, start: nat, len: nat, buf: seq<bv8>, at: nat)
    requires Room(j, pages, start, len, buf, at) && len > 0 && !Bad(j.g, pages, start)
    ensures var n := Reach(j.g, start, len);
            && start + n <= j.g.totlen && start / 512 + CeilPages(n) <= |pages|
            && at + (if j.isRead then n else Fetched(n)) <= |buf|
  {
    hide Bad, Reach, Fetched, Plan;
    GoodReach(j.g, pages, start, len);
    var n := Reach(j.g, start, len);
    RoomFor(start, n, |pages|);
    PlanStep(j.g, pages, j.mode, start, len);
    var parts := Plan(j.g, pages, j.mode, start, len).parts;
    assert parts[0] == Data(start, n);
    MemoryStep(parts);
  }

  /** After moving `n` bytes with outcome `o`, the transfer either has failed with it or ends as it would have. */
  ghost predicate GoesOn(j: Job, pages: seq<Page>, start: nat, len: nat, buf: seq<bv8>, at: nat, n: nat, o: Outcome)
    requires Room(j, pages, start, len, buf, at) && n <= len
  {
    if o.ret != 0 then Finish(j, pages, start, len, buf, at) == o
    else
      Room(j, o.pages, start + n, len - n, o.buf, at + n) &&
      GoodBlocks(j.g, o.pages, 0) == GoodBlocks(j.g, pages, 0) &&
      Finish(j, pages, start, len, buf, at) == Finish(j, o.pages, start + n, len - n, o.buf, at + n)
  }

  lemma FinishRead(j: Job, pages: seq<Page>, start: nat, len: nat, buf: seq<bv8>, at: nat, o: Outcome)
    requires Room(j, pages, start, len, buf, at) && len > 0 && !Bad(j.g, pages, start) && j.isRead
    requires Moved(j, pages, start, Reach(j.g, start, len), buf, at, o)
    ensures GoesOn(j, pages, start, len, buf, at, Reach(j.g, start, len), o)
  {
    hide Bad, Reach, Splice, ReadData, ReadFails, Plan, FinishParts, AllFit, GoodBlocks;
    PlanStep(j.g, pages, j.mode, start, len);
    StepAligned(j.g, start, len);
    var n := Reach(j.g, start, len);
    PlanFits(j.g, pages, j.mode, start, len);
    PlanFits(j.g, pages, j.mode, start + n, len - n);
    ReadFirst(j, pages, Data(start, n), Plan(j.g, pages, j.mode, start + n, len - n), buf, at);
  }

  lemma FinishWrite(j: Job, pages: seq<Page>, start: nat, len: nat, buf: seq<bv8>, at: nat, o: Outcome)
    requires Room(j, pages, start, len, buf, at) && len > 0 && !Bad(j.g, pages, start) && !j.isRead && !j.locked
    requires Moved(j, pages, start, Reach(j.g, start, len), buf, at, o)
    ensures GoesOn(j, pages, start, len, buf, at, Reach(j.g, start, len), o)
  {
    hide Bad, Reach, WriteChunks, Chunks, MemoryFor, SameMarks, Fetched, AllFit, Plan, FinishParts, GoodBlocks;
    PlanStep(j.g, pages, j.mode, start, len);
    StepAligned(j.g, start, len);
    var n := Reach(j.g, start, len);
    PlanFits(j.g, pages, j.mode, start, len);
    PlanFits(j.g, pages, j.mode, start + n, len - n);
    WriteFirst(j, pages, start, n, Plan(j.g, pages, j.mode, start + n, len - n), buf, at);
    PlanKept(j.g, pages, o.pages, j.mode, start + n, len - n);
    GoodBlocksKept(j.g, pages, o.pages, 0);
  }

  lemma FinishLocked(j: Job, pages: seq<Page>, start: nat, len: nat, buf: seq<bv8>, at: nat, o: Outcome)
    requires Room(j, pages, start, len, buf, at) && len > 0 && !Bad(j.g, pages, start) && !j.isRead && j.locked
    requires Moved(j, pages, start, Reach(j.g, start, len), buf, at, o)
    ensures GoesOn(j, pages, start, len, buf, at, Reach(j.g, start, len), o)
  {
    hide Bad, Reach, Plan, GoodBlocks;
    PlanStep(j.g, pages, j.mode, start, len);
  }

  lemma MarksFit(g: Geometry, before: seq<Page>, after: seq<Page>)
    requires g.Fits(before) && SameMarks(g, before, after)
    ensures g.Fits(after) && |after| == |before|
  {
  }

  lemma StepFacts(j: Job, pages: seq<Page>, pos: nat, rest: nat, buf: seq<bv8>, at: nat)
    requires Room(j, pages, pos, rest, buf, at) && rest > 0
    requires j.mode == Skip ==> GoodBlocks(j.g, pages, 0) > 0
    ensures var n := Reach(j.g, pos, rest);
            && n == Min(rest, BlockStart(j.g, pos) + j.g.erasesize - pos)
            && (n < rest ==> (pos + n) % WORD_LIMIT % 512 == 0
                             && BlockStart(j.g, (pos + n) % WORD_LIMIT) != BlockStart(j.g, pos))
    ensures Onward(j.g, pos) % 512 == 0 && BlockStart(j.g, Onward(j.g, pos)) != BlockStart(j.g, pos)
    ensures Bad(j.g, pages, BlockStart(j.g, pos)) == Bad(j.g, pages, pos)
    ensures j.isRead ==> at + rest <= |buf|
    ensures !Bad(j.g, pages, pos) ==>
              && pos + Reach(j.g, pos, rest) <= j.g.totlen
              && at + (if j.isRead then Reach(j.g, pos, rest) else Fetched(Reach(j.g, pos, rest))) <= |buf|
    ensures j.mode == Skip && Bad(j.g, pages, pos) ==>
              var next := Onward(j.g, pos);
              || Rounds(j.g, pages, next) < Rounds(j.g, pages, pos)
              || (Rounds(j.g, pages, next) == Rounds(j.g, pages, pos) && next > pos)
  {
    hide Bad, Plan, MemoryFor, Fetched, CeilPages, GoodBlocks, Onward, Rounds;
    NextBlock(j.g, pos, rest);
    hide BlockStart;
    StepAligned(j.g, pos, rest);
    BadBlock(j.g, pages, pos);
    if !Bad(j.g, pages, pos) {
      RoomForPart(j, pages, pos, rest, buf, at);
    } else if j.mode == Skip {
      Nearer(j.g, pages, pos);
    }
  }

  /** A transfer that stands at `pos` is going to end with `goal`. */
  ghost predicate Heads(j: Job, pages: seq<Page>, pos: nat, rest: nat, buf: seq<bv8>, at: nat, goal: Outcome) {
    Room(j, pages, pos, rest, buf, at) && Finish(j, pages, pos, rest, buf, at) == goal
  }

  lemma MakeHeads(j: Job, pages: seq<Page>, pos: nat, rest: nat, buf: seq<bv8>, at: nat)
    requires Room(j, pages, pos, rest, buf, at)
    ensures Heads(j, pages, pos, rest, buf, at, Finish(j, pages, pos, rest, buf, at))
  {
  }

  lemma HeadsRoom(j: Job, pages: seq<Page>, pos: nat, rest: nat, buf: seq<bv8>, at: nat, goal: Outcome)
    requires Heads(j, pages, pos, rest, buf, at, goal)
    ensures Room(j, pages, pos, rest, buf, at)
    ensures rest == 0 ==> goal == Outcome(pages, buf, 0, at)
  {
    if rest == 0 {
      FinishEnd(j, pages, pos, buf, at);
    }
  }

  lemma HeadsBad(j: Job, pages: seq<Page>, pos: nat, rest: nat, buf: seq<bv8>, at: nat, goal: Outcome)
    requires Heads(j, pages, pos, rest, buf, at, goal) && j.g.Fits(pages) && rest > 0 && Bad(j.g, pages, pos)
    ensures j.mode == Fail ==> goal == Outcome(pages, buf, 1, at)
    ensures j.mode == Skip && GoodBlocks(j.g, pages, 0) > 0 ==> Heads(j, pages, Onward(j.g, pos), rest, buf, at, goal)
    ensures j.mode == Fill ==>
              var n := Reach(j.g, pos, rest);
              at + n <= |buf| && Heads(j, pages, (pos + n) % WORD_LIMIT, rest - n, Splice(buf, at, Blank(n)), at + n,
                                       goal)
  {
    hide Room, Bad, Reach, Finish, GoodBlocks, Onward, Splice;
    HeadsRoom(j, pages, pos, rest, buf, at, goal);
    FinishBad(j, pages, pos, rest, buf, at);
    if j.mode == Fill {
      ReadsFill(j, pages, pos, rest, buf, at);
      FinishFilled(j, pages, pos, rest, buf, at);
    }
  }

  lemma ReadsFill(j: Job, pages: seq<Page>, pos: nat, rest: nat, buf: seq<bv8>, at: nat)
    requires Room(j, pages, pos, rest, buf, at)
    ensures j.mode == Fill ==> j.isRead
    ensures j.isRead ==> at + rest <= |buf|
  {
  }

  lemma HeadsMoved(j: Job, pages: seq<Page>, pos: nat, rest: nat, buf: seq<bv8>, at: nat, o: Outcome, goal: Outcome)
    requires Heads(j, pages, pos, rest, buf, at, goal) && j.g.Fits(pages) && rest > 0 && !Bad(j.g, pages, pos)
    requires Moved(j, pages, pos, Reach(j.g, pos, rest), buf, at, o)
    ensures if o.ret != 0 then goal == o
            else
              var n := Reach(j.g, pos, rest);
              && Heads(j, o.pages, (pos + n) % WORD_LIMIT, rest - n, o.buf, at + n, goal)
              && j.g.Fits(o.pages) && GoodBlocks(j.g, o.pages, 0) == GoodBlocks(j.g, pages, 0)
  {
    hide Bad, Reach, Moved, Finish, GoodBlocks, MemoryFor, Plan;
    HeadsRoom(j, pages, pos, rest, buf, at, goal);
    GoodReach(j.g, pages, pos, rest);
    if j.isRead {
      FinishRead(j, pages, pos, rest, buf, at, o);
    } else if j.locked {
      FinishLocked(j, pages, pos, rest, buf, at, o);
    } else {
      FinishWrite(j, pages, pos, rest, buf, at, o);
    }
  }

  // ---------------------------------------------------------------- theorems about whole transfers

  lemma {:induction false} ChunksGoThrough(cfg: OobConfig, pages: seq<Page>, worn: set<nat>, page: nat,
                                           chunks: seq<seq<bv8>>)
    requires cfg.Valid() && page + |chunks| <= |pages| && forall c :: c in chunks ==> |c| <= OOB_BLOCK
    ensures WriteChunks(cfg, pages, worn, page, chunks).ok <==> forall p :: page <= p < page + |chunks| ==> p !in worn
    decreases |chunks|
  {
    hide Program, PageImage;
    if chunks != [] && page !in worn {
      ChunksGoThrough(cfg, pages[page := Program(pages[page], PageImage(cfg, chunks[0]))], worn, page + 1, chunks[1..]);
    }
  }

  /** A write along a course goes through exactly if no page of the course is worn out. */
  lemma {:induction false} PartsGoThrough(g: Geometry, pages: seq<Page>, parts: seq<Part>, mem: seq<bv8>)
    requires g.Fits(pages) && AllFit(g, parts) && MemoryFor(parts) <= |mem|
    ensures WriteParts(g, pages, parts, mem).ok <==> forall p :: p in g.worn ==> !InParts(parts, p)
    decreases |parts|
  {
    hide WriteChunks, Chunks, MemoryFor, CeilPages, InPart;
    if parts != [] {
      MemoryStep(parts);
      forall p ensures InParts(parts, p) <==> InPart(parts[0], p) || InParts(parts[1..], p) {
        InPartsStep(parts, p);
      }
      if parts[0].Filled? {
        forall p ensures !InPart(parts[0], p) {
          if InPart(parts[0], p) {
            NotFilled(parts[0], p);
          }
        }
        PartsGoThrough(g, pages, parts[1..], mem[parts[0].n..]);
      } else {
        hide InParts;
        assert parts[0] in parts;
        RoomFor(parts[0].pos, parts[0].n, |pages|);
        var first, chunks := parts[0].pos / 512, Chunks(mem, parts[0].n);
        ChunksGoThrough(g.cfg, pages, g.worn, first, chunks);
        WriteChunksKeepMarks(g, pages, first, chunks);
        forall p: nat ensures InPart(parts[0], p) <==> first <= p < first + |chunks| {
          DataPart(parts[0], p);
        }
        WritePartsStep(g, pages, parts, mem);
        var w := WriteChunks(g.cfg, pages, g.worn, first, chunks);
        if w.ok {
          PartsGoThrough(g, w.pages, parts[1..], mem[parts[0].n..]);
        }
      }
    }
  }

  lemma DataPart(part: Part, p: nat)
    requires part.Data?
    ensures InPart(part, p) <==> part.pos / 512 <= p < part.pos / 512 + CeilPages(part.n)
  {
  }

  lemma InPartsStep(parts: seq<Part>, p: nat)
    requires parts != []
    ensures InParts(parts, p) <==> InPart(parts[0], p) || InParts(parts[1..], p)
  {
    hide InPart;
    if InParts(parts[1..], p) {
      LaterParts(parts, p);
    }
  }

  /** Reading along a course fails if one of its parts does. */
  lemma {:induction false} PartsReport(g: Geometry, pages: seq<Page>, parts: seq<Part>, part: Part)
    requires g.Fits(pages) && AllFit(g, parts) && part in parts && PartFits(g, part) && PartFails(g, pages, part)
    ensures !ReadParts(g, pages, parts).ok
    decreases |parts|
  {
    hide PartFails, PartData, PartFits;
    if part != parts[0] {
      PartsReport(g, pages, parts[1..], part);
    }
  }

  /** A transfer that reads, in any mode, ends with -1 if a page on its course has a fatal pair of flips in a half. */
  lemma TransferReports(j: Job, pages: seq<Page>, start: nat, len: nat, buf: seq<bv8>, at: nat, p: nat, page: Page,
                        chunk: seq<bv8>, h: nat, d: Damage)
    requires Room(j, pages, start, len, buf, at) && j.isRead && j.g.cfg.eccvalidPos != -1 && p < |pages|
    requires InParts(Plan(j.g, pages, j.mode, start, len).parts, p)
    requires Erased(j.g.cfg, page) && |chunk| <= OOB_BLOCK && h < 2 && Fills(chunk, h)
    requires Suffered(j.g.cfg, page, chunk, pages[p], h, d) && d.Fatal()
    ensures Finish(j, pages, start, len, buf, at).ret == -1
  {
    hide Suffered, Erased, Plan, ReadParts, ReadCount, Splice, CeilPages, ReadFails;
    PlanFits(j.g, pages, j.mode, start, len);
    var parts := Plan(j.g, pages, j.mode, start, len).parts;
    var part :| part in parts && InPart(part, p);
    RoomFor(part.pos, part.n, |pages|);
    ReadReports(j.g.cfg, pages, part.pos / 512, CeilPages(part.n), p, page, chunk, h, d);
    PartsReport(j.g, pages, parts, part);
  }

  /** Writing and then reading back across bad blocks. With enough good blocks ahead, and no worn-out or unerased page
      in the course, the write returns 0, and a read from the same start returns 0 and the bytes written, although
      each half page may have lost a bit since, as long as the marks of the blocks are what they were. */
  lemma SkipRoundTrip(g: Geometry, before: seq<Page>, start: nat, len: nat, mem: seq<bv8>, from: nat,
                      after: seq<Page>, buf: seq<bv8>, to: nat, locked: bool)
    requires Room(Job(g, false, Skip, false), before, start, len, mem, from)
    requires Enough(g, before, start, len)
    requires forall p :: 0 <= p < |before| && InParts(Plan(g, before, Skip, start, len).parts, p) ==>
                           p !in g.worn && Erased(g.cfg, before[p])
    requires SameMarks(g, before, after)
    requires forall p :: 0 <= p < |before| && InParts(Plan(g, before, Skip, start, len).parts, p) ==>
                           Tolerable(g.cfg, Finish(Job(g, false, Skip, false), before, start, len, mem, from).pages[p],
                                     after[p])
    requires to + len <= |buf|
    ensures var written := Finish(Job(g, false, Skip, false), before, start, len, mem, from);
            written.ret == 0 && written.at == from + len
    ensures from + len <= |mem| && Room(Job(g, true, Skip, locked), after, start, len, buf, to)
    ensures Finish(Job(g, true, Skip, locked), after, start, len, buf, to) ==
            Outcome(after, Splice(buf, to, mem[from..from + len]), 0, to + len)
  {
    hide Erased, Tolerable, InParts, MemoryFor, SameMarks, Plan, Bad, Ascending, AllFit, WriteParts, ReadParts, Splice,
      Enough, ReadCount, WriteCount, GoodBlocks;
    var parts := Plan(g, before, Skip, start, len).parts;
    if len > 0 {
      EnoughIsSome(g, before, start, len);
    }
    PlanAscends(g, before, Skip, start, len);
    PlanFits(g, before, Skip, start, len);
    PartsGoThrough(g, before, parts, mem[from..]);
    forall p | p in g.worn ensures !InParts(parts, p) {
      if InParts(parts, p) {
        PartsInside(g, before, parts, p);
      }
    }
    MarksFit(g, before, after);
    PlanKept(g, before, after, Skip, start, len);
    PartsRoundTrip(g, before, parts, start, mem[from..], after);
    assert mem[from..][..len] == mem[from..from + len];
  }

  /** How a skipping transfer stands: where, and how many bytes are left. */
  datatype Standing = Standing(pos: nat, rest: nat)

  /** One round of its loop, if nothing fails: a bad block is passed over, a part in a good one is moved. */
  function SkipRound(g: Geometry, pages: seq<Page>, s: Standing): Standing
    requires g.Fits(pages)
  {
    if s.rest == 0 then s
    else if Bad(g, pages, s.pos) then Standing(Onward(g, s.pos), s.rest)
    else
      var n := Reach(g, s.pos, s.rest);
      Standing((s.pos + n) % WORD_LIMIT, s.rest - n)
  }

  function SkipRounds(g: Geometry, pages: seq<Page>, s: Standing, k: nat): Standing
    requires g.Fits(pages)
    decreases k
  {
    if k == 0 then s else SkipRounds(g, pages, SkipRound(g, pages, s), k - 1)
  }

  /** Some number of rounds brings the transfer to its end. */
  ghost predicate Ends(g: Geometry, pages: seq<Page>, s: Standing)
    requires g.Fits(pages)
  {
    exists k: nat :: SkipRounds(g, pages, s, k).rest == 0
  }

  lemma EndsAfter(g: Geometry, pages: seq<Page>, s: Standing, k: nat)
    requires g.Fits(pages)
    ensures SkipRounds(g, pages, s, k).rest == 0 || (k == 0 && s.rest == 0) ==> Ends(g, pages, s)
  {
    if k == 0 {
      assert SkipRounds(g, pages, s, k) == s;
    }
  }

  lemma GoodIsCounted(g: Geometry, pages: seq<Page>)
    requires g.Fits(pages)
    ensures GoodBlocks(g, pages, 0) > 0 <==> exists pos: nat :: !Bad(g, pages, pos)
  {
    hide Bad;
    if pos: nat :| !Bad(g, pages, pos) {
      GoodSomewhere(g, pages, pos);
    }
    if GoodBlocks(g, pages, 0) > 0 {
      GoodBlockAt(g, pages, 0);
    }
  }

  lemma {:induction false} GoodBlockAt(g: Geometry, pages: seq<Page>, b: nat)
    requires g.Fits(pages) && GoodBlocks(g, pages, b) > 0
    ensures exists pos: nat :: !Bad(g, pages, pos)
    decreases g.totlen / g.erasesize - b
  {
    hide Bad;
    if Bad(g, pages, b * g.erasesize) {
      GoodBlockAt(g, pages, b + 1);
    }
  }

  /** Where no block is good, no number of rounds brings a skipping transfer any further. */
  lemma {:induction false} SkipNeverMoves(g: Geometry, pages: seq<Page>, s: Standing, k: nat)
    requires g.Fits(pages) && forall pos: nat :: Bad(g, pages, pos)
    ensures SkipRounds(g, pages, s, k).rest == s.rest
    decreases k
  {
    hide Bad;
    if k > 0 {
      SkipNeverMoves(g, pages, SkipRound(g, pages, s), k - 1);
    }
  }

  lemma NothingMoves(g: Geometry, pages: seq<Page>, s: Standing)
    requires g.Fits(pages) && GoodBlocks(g, pages, 0) == 0
    ensures forall k: nat :: SkipRounds(g, pages, s, k).rest == s.rest
    ensures s.rest > 0 ==> !Ends(g, pages, s)
  {
    hide Bad, SkipRound, SkipRounds, GoodBlocks;
    GoodIsCounted(g, pages);
    forall k: nat ensures SkipRounds(g, pages, s, k).rest == s.rest {
      SkipNeverMoves(g, pages, s, k);
    }
  }

  /** Where a block is good, some number of rounds brings it to its end. */
  lemma {:induction false} SkipEnds(g: Geometry, pages: seq<Page>, s: Standing) returns (k: nat)
    requires g.Fits(pages) && s.pos < WORD_LIMIT && GoodBlocks(g, pages, 0) > 0
    ensures SkipRounds(g, pages, s, k).rest == 0
    decreases s.rest, Rounds(g, pages, s.pos), WORD_LIMIT - s.pos
  {
    hide Bad, Reach, Onward, GoodBlocks, Rounds;
    if s.rest == 0 {
      k := 0;
    } else {
      if Bad(g, pages, s.pos) {
        Nearer(g, pages, s.pos);
      } else {
        GoodReach(g, pages, s.pos, s.rest);
      }
      var more := SkipEnds(g, pages, SkipRound(g, pages, s));
      k := more + 1;
      assert SkipRounds(g, pages, s, k) == SkipRounds(g, pages, SkipRound(g, pages, s), more);
    }
  }

  /** The loop of a skipping transfer in which nothing fails ends exactly if there is nothing to transfer or a good
      block on the device; that is when the course is called complete. */
  lemma SkipEndsExactly(g: Geometry, pages: seq<Page>, start: nat, len: nat)
    requires g.Fits(pages) && start < WORD_LIMIT
    ensures Ends(g, pages, Standing(start, len)) <==> len == 0 || exists pos: nat :: !Bad(g, pages, pos)
    ensures start % 512 == 0 ==> (Plan(g, pages, Skip, start, len).complete <==> Ends(g, pages, Standing(start, len)))
  {
    hide Bad, SkipRound, SkipRounds, Plan, GoodBlocks, Ends;
    GoodIsCounted(g, pages);
    if start % 512 == 0 {
      PlanAscends(g, pages, Skip, start, len);
    }
    if GoodBlocks(g, pages, 0) > 0 {
      var k := SkipEnds(g, pages, Standing(start, len));
      EndsAfter(g, pages, Standing(start, len), k);
    } else {
      NothingMoves(g, pages, Standing(start, len));
      if len == 0 {
        EndsAfter(g, pages, Standing(start, len), 0);
      }
    }
  }

  /** A skipping transfer comes to pages before its start exactly if there are not enough good blocks ahead and a good
      page lies before the start: the address turns round. */
  lemma SkipComesBackExactly(g: Geometry, pages: seq<Page>, start: nat, len: nat)
    requires g.Fits(pages) && start < WORD_LIMIT && start % 512 == 0
    ensures (exists p :: 0 <= p < start / 512 && InParts(Plan(g, pages, Skip, start, len).parts, p)) <==>
            !Enough(g, pages, start, len) && exists q :: 0 <= q < start / 512 && !Bad(g, pages, q * 512)
  {
    hide Bad, Plan, InParts, Enough, GoodBlocks, Ascending, BlockStart, PartFits;
    var parts := Plan(g, pages, Skip, start, len).parts;
    PlanAscends(g, pages, Skip, start, len);
    PlanFits(g, pages, Skip, start, len);
    PlanInGoodBlocks(g, pages, Skip, start, len);
    if p :| 0 <= p < start / 512 && InParts(parts, p) {
      PartsInside(g, pages, parts, p);
      assert !Bad(g, pages, p * 512);
      if Ascending(g, parts, start) {
        AscendingBeyond(g, parts, start, p);
      }
      SomeParts(parts, p);
    }
    if !Enough(g, pages, start, len) {
      if q :| 0 <= q < start / 512 && !Bad(g, pages, q * 512) {
        GoodSomewhere(g, pages, q * 512);
        GoodBelow(g, pages, start, q * 512);
        ComesBack(g, pages, start, len, start, q * 512);
        var part :| part in parts && part.Data? && part.pos < start;
        assert PartFits(g, part);
        FirstPageIn(g, parts, part, start);
      }
    }
  }

  lemma SomeParts(parts: seq<Part>, p: nat)
    requires InParts(parts, p)
    ensures parts != []
  {
  }

  lemma FirstPageIn(g: Geometry, parts: seq<Part>, part: Part, start: nat)
    requires g.Valid() && part in parts && part.Data? && PartFits(g, part) && part.pos < start && start % 512 == 0
    ensures part.pos / 512 < start / 512 && InParts(parts, part.pos / 512)
  {
    assert InPart(part, part.pos / 512);
  }

  lemma GoodBelow(g: Geometry, pages: seq<Page>, start: nat, q: nat)
    requires g.Fits(pages) && q < start && !Bad(g, pages, q)
    ensures BlockStart(g, q) + (if Bad(g, pages, start) then start % g.erasesize else 0) < start
  {
    hide Bad;
    var e := g.erasesize;
    Parts(q, e);
    Parts(start, e);
    TimesLess(q / e, start / e + 1, e);
    assert e * (start / e + 1) == e * (start / e) + e;
    if q / e == start / e {
      BadBlock(g, pages, q);
      BadBlock(g, pages, start);
    } else {
      TimesOrder(q / e + 1, start / e, e);
      assert e * (q / e + 1) == e * (q / e) + e;
    }
  }

  /** A skipping write changes no page before its start if enough good blocks lie ahead, or none behind. */
  lemma SkipWriteStaysAhead(j: Job, before: seq<Page>, start: nat, len: nat, mem: seq<bv8>, from: nat)
    requires Room(j, before, start, len, mem, from) && j.mode == Skip && start % 512 == 0
    requires Enough(j.g, before, start, len) || forall q :: 0 <= q < start / 512 ==> Bad(j.g, before, q * 512)
    ensures forall p :: 0 <= p < |before| && p < start / 512 ==>
                          Finish(j, before, start, len, mem, from).pages[p] == before[p]
  {
    hide MemoryFor, WriteParts, ReadParts, InParts, SameMarks, Bad, Plan, Enough;
    PlanFits(j.g, before, Skip, start, len);
    SkipComesBackExactly(j.g, before, start, len);
    if !j.isRead && !j.locked {
      WritePartsFrame(j.g, before, Plan(j.g, before, Skip, start, len).parts, mem[from..]);
    }
  }

  lemma EnoughIsSome(g: Geometry, pages: seq<Page>, start: nat, len: nat)
    requires g.Fits(pages) && len > 0 && Enough(g, pages, start, len)
    ensures GoodBlocks(g, pages, 0) > 0
  {
    GoodBlocksFall(g, pages, 0, start / g.erasesize);
    hide GoodBlocks;
  }

  lemma PartsInside(g: Geometry, pages: seq<Page>, parts: seq<Part>, p: nat)
    requires g.Fits(pages) && AllFit(g, parts) && InParts(parts, p)
    ensures p < |pages|
  {
    hide CeilPages;
    var part :| part in parts && InPart(part, p);
    RoomFor(part.pos, part.n, |pages|);
  }

  /** Whatever becomes of a write, in any mode: every bad-block mark stays as it was, the pages of a bad block are not
      programmed, and the course of every later transfer is what it would have been before. */
  lemma WriteSparesBadBlocks(j: Job, before: seq<Page>, start: nat, len: nat, mem: seq<bv8>, from: nat)
    requires Room(j, before, start, len, mem, from)
    ensures var after := Finish(j, before, start, len, mem, from).pages;
            && SameMarks(j.g, before, after) && j.g.Fits(after)
            && (forall p :: 0 <= p < |before| && Bad(j.g, before, p * 512) ==> after[p] == before[p])
            && (forall pos: nat :: Bad(j.g, after, pos) == Bad(j.g, before, pos))
            && forall m, s: nat, n: nat :: s < WORD_LIMIT ==> Plan(j.g, after, m, s, n) == Plan(j.g, before, m, s, n)
  {
    hide MemoryFor, WriteParts, ReadParts, InParts, SameMarks, Bad, Plan;
    var after := Finish(j, before, start, len, mem, from).pages;
    PlanFits(j.g, before, j.mode, start, len);
    MarksSame(j.g, before);
    if !j.isRead && !j.locked {
      WritePartsFrame(j.g, before, Plan(j.g, before, j.mode, start, len).parts, mem[from..]);
      PlanInGoodBlocks(j.g, before, j.mode, start, len);
    }
    forall pos: nat ensures Bad(j.g, after, pos) == Bad(j.g, before, pos) {
      BadKept(j.g, before, after, pos);
    }
    forall m, s: nat, n: nat | s < WORD_LIMIT ensures Plan(j.g, after, m, s, n) == Plan(j.g, before, m, s, n) {
      PlanKept(j.g, before, after, m, s, n);
    }
  }

  lemma MarksSame(g: Geometry, pages: seq<Page>)
    requires g.Valid()
    ensures SameMarks(g, pages, pages)
  {
  }
}
