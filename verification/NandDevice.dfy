/** The page-wise read and write loops and the bad-block handling of the NAND driver (u-boot-v1.2/common/cmd_nand.c). */
module NandDevice {
  import opened Basics
  import opened NandEcc
  import opened NandEccTheorems
  import opened NandPage
  import opened NandTransfer
  import opened NandRw

  // ---------------------------------------------------------------- the device

  class NandChip {
    const cfg: OobConfig
    const totlen: nat
    const erasesize: nat
    const dataBuf: array<bv8>
    const worn: set<nat>           // pages whose program operation reports failure
    var writeProtected: bool
    var pages: seq<Page>

    ghost predicate Valid()
      reads this
    {
      && cfg.Valid() && dataBuf.Length == PAGE_LENGTH
      && ProperSizes(erasesize, totlen)
      && |pages| * OOB_BLOCK == totlen
    }

    constructor (g: Geometry, pages: seq<Page>, writeProtected: bool)
      requires g.Fits(pages)
      ensures Valid() && Sizes() == g && this.pages == pages && this.writeProtected == writeProtected && fresh(dataBuf)
    {
      cfg, totlen, erasesize, worn := g.cfg, g.totlen, g.erasesize, g.worn;
      dataBuf := new bv8[PAGE_LENGTH];
      this.writeProtected, this.pages := writeProtected, pages;
    }

    method ReadBuf(page: nat)
      requires Valid() && page < |pages|
      modifies dataBuf
      ensures dataBuf[..] == pages[page]
    {
      for i := 0 to PAGE_LENGTH
        invariant dataBuf[..i] == pages[page][..i]
      {
        dataBuf[i] := pages[page][i];
      }
    }

    /** Reads a page into the buffer and corrects both halves that were written with a code. */
    method FetchPage(page: nat, ecc: array<bv8>) returns (failed: nat)
      requires Valid() && page < |pages| && ecc.Length == 6 && ecc != dataBuf
      modifies dataBuf, ecc
      ensures dataBuf[..OOB_BLOCK] == PageData(cfg, pages[page])
      ensures failed > 0 <==> PageFails(cfg, pages[page])
    {
      ReadBuf(page);
      PickEcc(ecc);
      failed := CorrectPage(pages[page], ecc);
    }

    /** Picks the code bytes out of the out-of-band bytes. */
    method PickEcc(ecc: array<bv8>)
      requires Valid() && ecc.Length == 6 && ecc != dataBuf
      modifies ecc
      ensures CodeAt(ecc, 0) == CodeIn(cfg, dataBuf[..], 0)
      ensures CodeAt(ecc, 3) == CodeIn(cfg, dataBuf[..], 1)
    {
      for j := 0 to 6
        invariant forall k :: 0 <= k < j ==> ecc[k] == dataBuf[OOB_BLOCK + cfg.eccPos[k]]
      {
        ecc[j] := dataBuf[OOB_BLOCK + cfg.eccPos[j]];
      }
    }

    method CorrectPage(ghost p: Page, ecc: array<bv8>) returns (failed: nat)
      requires Valid() && ecc.Length == 6 && ecc != dataBuf
      requires dataBuf[..] == p && CodeAt(ecc, 0) == CodeIn(cfg, p, 0) && CodeAt(ecc, 3) == CodeIn(cfg, p, 1)
      modifies dataBuf, ecc
      ensures dataBuf[..OOB_BLOCK] == PageData(cfg, p)
      ensures failed > 0 <==> PageFails(cfg, p)
    {
      hide Correct, CodeOf, ReadHalf;
      var eccCalc := new bv8[6];
      failed := 0;
      var status := CorrectIfCoded(0, p, ecc, eccCalc);
      if status == -1 {
        failed := failed + 1;
      }
      status := CorrectIfCoded(1, p, ecc, eccCalc);
      if status == -1 {
        failed := failed + 1;
      }
      assert dataBuf[..OOB_BLOCK] == dataBuf[0 * BLOCK_SIZE..1 * BLOCK_SIZE] + dataBuf[1 * BLOCK_SIZE..2 * BLOCK_SIZE];
    }

    method CorrectIfCoded(h: nat, ghost p: Page, ecc: array<bv8>, eccCalc: array<bv8>) returns (status: int)
      requires Valid() && h < 2 && ecc.Length == eccCalc.Length == 6
      requires ecc != dataBuf && eccCalc != dataBuf && ecc != eccCalc
      requires dataBuf[h * BLOCK_SIZE..] == p[h * BLOCK_SIZE..] && CodeAt(ecc, 3 * h) == CodeIn(cfg, p, h)
      modifies dataBuf, ecc, eccCalc
      ensures dataBuf[h * BLOCK_SIZE..(h + 1) * BLOCK_SIZE] == ReadHalf(cfg, p, h).block
      ensures status == ReadHalf(cfg, p, h).status
      ensures if h == 0 then dataBuf[BLOCK_SIZE..] == old(dataBuf[BLOCK_SIZE..])
              else dataBuf[..BLOCK_SIZE] == old(dataBuf[..BLOCK_SIZE])
      ensures h == 0 ==> CodeAt(ecc, 3) == old(CodeAt(ecc, 3))
    {
      hide Correct, CodeOf;
      assert dataBuf[h * BLOCK_SIZE..(h + 1) * BLOCK_SIZE] == p[h * BLOCK_SIZE..(h + 1) * BLOCK_SIZE];
      if cfg.eccvalidPos != -1 {
        assert dataBuf[OOB_BLOCK + cfg.eccvalidPos] == p[OOB_BLOCK + cfg.eccvalidPos];
        if dataBuf[OOB_BLOCK + cfg.eccvalidPos] & NibbleMask(h) != NibbleMask(h) {
          status := CorrectHalf(h, ecc, eccCalc);
          return;
        }
      }
      status := 0;
    }

    /** Recalculates the code of half `h` of the buffer and corrects it by the code read. */
    method CorrectHalf(h: nat, ecc: array<bv8>, eccCalc: array<bv8>) returns (status: int)
      requires Valid() && h < 2 && ecc.Length == eccCalc.Length == 6
      requires ecc != dataBuf && eccCalc != dataBuf && ecc != eccCalc
      modifies dataBuf, ecc, eccCalc
      ensures var s := Stored(old(dataBuf[h * BLOCK_SIZE..(h + 1) * BLOCK_SIZE]), old(CodeAt(ecc, 3 * h)));
              Correction(status, dataBuf[h * BLOCK_SIZE..(h + 1) * BLOCK_SIZE], CodeAt(ecc, 3 * h)) == Read(s)
      ensures if h == 0 then dataBuf[BLOCK_SIZE..] == old(dataBuf[BLOCK_SIZE..])
              else dataBuf[..BLOCK_SIZE] == old(dataBuf[..BLOCK_SIZE])
      ensures h == 0 ==> CodeAt(ecc, 3) == old(CodeAt(ecc, 3))
    {
      hide Correct, CodeOf;
      CalculateEcc(dataBuf, h * BLOCK_SIZE, eccCalc, 3 * h);
      status := CorrectData(dataBuf, h * BLOCK_SIZE, ecc, 3 * h, eccCalc, 3 * h);
    }

    method CopyOut(n: nat, buf: array<bv8>, at: nat)
      requires Valid() && n <= OOB_BLOCK && at + n <= buf.Length && buf != dataBuf
      modifies buf
      ensures buf[..] == Splice(old(buf[..]), at, dataBuf[..n])
    {
      for i := 0 to n
        invariant forall k :: 0 <= k < i ==> buf[at + k] == dataBuf[k]
        invariant forall k :: 0 <= k < buf.Length && !(at <= k < at + i) ==> buf[k] == old(buf[k])
      {
        buf[at + i] := dataBuf[i];
      }
    }

    /** Fetches a page and hands out its first `n` bytes. */
    method ReadOne(page: nat, n: nat, buf: array<bv8>, at: nat, ecc: array<bv8>) returns (failed: nat)
      requires Valid() && page < |pages| && n <= OOB_BLOCK && at + n <= buf.Length
      requires ecc.Length == 6 && ecc != dataBuf && buf != dataBuf && ecc != buf
      modifies dataBuf, buf, ecc
      ensures Valid()
      ensures buf[..] == Splice(old(buf[..]), at, PageData(cfg, pages[page])[..n])
      ensures failed > 0 <==> PageFails(cfg, pages[page])
    {
      failed := FetchPage(page, ecc);
      assert dataBuf[..n] == dataBuf[..OOB_BLOCK][..n];
      CopyOut(n, buf, at);
    }

    /** Reads `len` bytes from `start` on into `buf[bpos..]`; reading goes on after a page that cannot be corrected. */
    method ReadEcc(start: nat, len: nat, buf: array<bv8>, bpos: nat, ecc: array<bv8>) returns (status: int, retlen: nat)
      requires Valid() && start % 512 == 0 && bpos + len <= buf.Length
      requires ecc.Length == 6 && ecc != dataBuf && buf != dataBuf && ecc != buf
      modifies dataBuf, buf, ecc
      ensures Valid()
      ensures start + len > totlen ==> status == -1 && retlen == 0 && buf[..] == old(buf[..])
      ensures start + len <= totlen ==>
                && retlen == len
                && buf[..] == Splice(old(buf[..]), bpos, ReadData(cfg, pages, start / 512, CeilPages(len))[..len])
                && status == if ReadFails(cfg, pages, start / 512, CeilPages(len)) then -1 else 0
    {
      hide PageData, PageFails, ReadData, ReadFails, Splice;
      if start + len > totlen {
        return -1, 0;
      }
      var page := start / 512;
      var eccStatus := 0;
      retlen := 0;
      ghost var i, was := 0, buf[..];
      ghost var data := [];
      ReadStart(cfg, pages, page, was, bpos);
      while retlen < len
        invariant Valid() && page == start / 512 + i && i <= CeilPages(len)
        invariant if i < CeilPages(len) then retlen == i * 512 < len else retlen == len
        invariant data == ReadData(cfg, pages, start / 512, i)[..retlen]
        invariant buf[..] == Splice(was, bpos, data)
        invariant eccStatus > 0 <==> ReadFails(cfg, pages, start / 512, i)
      {
        var n := if retlen + OOB_BLOCK >= len then len - retlen else OOB_BLOCK;
        var failed := ReadOne(page, n, buf, bpos + retlen, ecc);
        ReadStep(cfg, pages, start / 512, i, n);
        SpliceTwice(was, bpos, data, PageData(cfg, pages[page])[..n]);
        FailsStep(cfg, pages, start / 512, i);
        data := data + PageData(cfg, pages[page])[..n];
        retlen := retlen + n;
        eccStatus := eccStatus + failed;
        page := page + 1;
        i := i + 1;
      }
      status := if eccStatus > 0 then -1 else 0;
    }

    // ---------------------------------------------------------------- writing

    /** Calculates the code of half `h` of the buffer, and puts it and its mark into the out-of-band bytes. */
    method StoreEcc(h: nat, ecc: array<bv8>)
      requires Valid() && h < 2 && ecc.Length == 6 && ecc != dataBuf
      modifies dataBuf, ecc
      ensures dataBuf[..OOB_BLOCK] == old(dataBuf[..OOB_BLOCK])
      ensures var oob := old(dataBuf[OOB_BLOCK..]);
              dataBuf[OOB_BLOCK..] == WithCode(cfg, oob, h, CodeOf(old(dataBuf[h * BLOCK_SIZE..(h + 1) * BLOCK_SIZE])),
                                               if h == 0 || cfg.eccvalidPos == -1 then 0xf0
                                               else oob[cfg.eccvalidPos] & 0x0f)
    {
      hide CodeOf;
      CalculateEcc(dataBuf, h * BLOCK_SIZE, ecc, 3 * h);
      ghost var code := CodeOf(dataBuf[h * BLOCK_SIZE..(h + 1) * BLOCK_SIZE]);
      assert ecc[3 * h] == code.c0 && ecc[3 * h + 1] == code.c1 && ecc[3 * h + 2] == code.c2;
      PutOob(cfg.eccPos[3 * h], ecc[3 * h]);
      PutOob(cfg.eccPos[3 * h + 1], ecc[3 * h + 1]);
      PutOob(cfg.eccPos[3 * h + 2], ecc[3 * h + 2]);
      if cfg.eccvalidPos != -1 {
        PutOob(cfg.eccvalidPos, if h == 0 then 0xf0 else dataBuf[OOB_BLOCK + cfg.eccvalidPos] & 0x0f);
      }
    }

    method PutOob(at: nat, x: bv8)
      requires Valid() && at < OOB_SIZE
      modifies dataBuf
      ensures dataBuf[..OOB_BLOCK] == old(dataBuf[..OOB_BLOCK])
      ensures dataBuf[OOB_BLOCK..] == old(dataBuf[OOB_BLOCK..])[at := x]
    {
      dataBuf[OOB_BLOCK + at] := x;
    }

    method Pad(from: nat, to: nat)
      requires Valid() && from <= to <= PAGE_LENGTH
      modifies dataBuf
      ensures dataBuf[..] == old(dataBuf[..from]) + Blank(to - from) + old(dataBuf[to..])
    {
      for i := from to to
        invariant dataBuf[..] == old(dataBuf[..from]) + Blank(i - from) + old(dataBuf[i..])
      {
        dataBuf[i] := 0xff;
      }
    }

    /** Programs a page with the first `last` bytes of the buffer, their codes and blanks for the rest. */
    method WritePage(page: nat, last: nat, ecc: array<bv8>) returns (ok: bool)
      requires Valid() && page < |pages| && last <= OOB_BLOCK && ecc.Length == 6 && ecc != dataBuf
      modifies this`pages, dataBuf, ecc
      ensures Valid()
      ensures pages == old(pages)[page := Program(old(pages[page]), PageImage(cfg, old(dataBuf[..last])))]
      ensures ok == (page !in worn)
    {
      hide CodeOf, WithCode, Program;
      ghost var chunk := dataBuf[..last];
      Pad(OOB_BLOCK, PAGE_LENGTH);
      assert dataBuf[..last] == chunk && dataBuf[OOB_BLOCK..] == Blank(OOB_SIZE);
      for i := 0 to 6
        modifies ecc
      {
        ecc[i] := 0x00;
      }
      if last >= 256 {
        assert dataBuf[0 * BLOCK_SIZE..(0 + 1) * BLOCK_SIZE] == chunk[..BLOCK_SIZE];
        assert dataBuf[OOB_BLOCK..] == Blank(OOB_SIZE);
        StoreEcc(0, ecc);
        assert dataBuf[..last] == dataBuf[..OOB_BLOCK][..last] == chunk;
      }
      assert dataBuf[OOB_BLOCK..] == FirstOob(cfg, chunk);
      if last == OOB_BLOCK {
        assert dataBuf[1 * BLOCK_SIZE..(1 + 1) * BLOCK_SIZE] == chunk[BLOCK_SIZE..];
        StoreEcc(1, ecc);
      }
      assert dataBuf[..last] == chunk && dataBuf[OOB_BLOCK..] == OobImage(cfg, chunk);
      Pad(last, OOB_BLOCK);
      assert dataBuf[..] == PageImage(cfg, chunk);
      pages := pages[page := Program(pages[page], dataBuf[..])];
      ok := page !in worn;
    }

    /** Copies `n` bytes of the caller's memory into the buffer. */
    method FillBuf(n: nat, buf: array<bv8>, at: nat)
      requires Valid() && n <= OOB_BLOCK && at + n <= buf.Length && buf != dataBuf
      modifies dataBuf
      ensures dataBuf[..n] == buf[at..at + n]
    {
      for i := 0 to n
        invariant dataBuf[..i] == buf[at..at + i]
      {
        dataBuf[i] := buf[at + i];
      }
    }

    /** Fetches `n` bytes of the caller's memory and programs a page with them. */
    method WriteOne(page: nat, n: nat, buf: array<bv8>, at: nat, ecc: array<bv8>) returns (ok: bool)
      requires Valid() && page < |pages| && n <= OOB_BLOCK && at + n <= buf.Length
      requires ecc.Length == 6 && ecc != dataBuf && buf != dataBuf && ecc != buf
      modifies `pages, dataBuf, ecc
      ensures Valid()
      ensures pages == old(pages)[page := Program(old(pages[page]), PageImage(cfg, buf[at..at + n]))]
      ensures ok == (page !in worn)
    {
      hide Program, PageImage;
      FillBuf(n, buf, at);
      ok := WritePage(page, n, ecc);
    }

    /** Writes `len` bytes of `buf[bpos..]` from the page at `to` on. */
    method WriteEcc(to: nat, len: nat, buf: array<bv8>, bpos: nat, ecc: array<bv8>) returns (status: int, retlen: nat)
      requires Valid() && to % 512 == 0 && bpos + Fetched(len) <= buf.Length
      requires ecc.Length == 6 && ecc != dataBuf && buf != dataBuf && ecc != buf
      modifies `pages, dataBuf, ecc
      ensures Valid() && status in {0, -1} && (status == 0 ==> retlen == len)
      ensures to + len > totlen || writeProtected ==> status == -1 && pages == old(pages)
      ensures to + len <= totlen && !writeProtected ==>
                Written(pages, status == 0) == WriteChunks(cfg, old(pages), worn, to / 512, Chunks(buf[bpos..], len))
    {
      hide WriteChunks, Chunks, Fetched, Program, PageImage, CeilPages, ProperSizes;
      if to + len > totlen {
        return -1, 0;
      }
      var page := to / 512;
      retlen := 0;
      if writeProtected {
        return -1, 0;
      }
      ghost var chunks := Chunks(buf[bpos..], len);
      ghost var i := 0;
      PageCount(len, 0);
      RoomFor(to, len, |pages|);
      while retlen < len
        invariant Valid() && page == to / 512 + i && i <= |chunks| && to / 512 + |chunks| <= |pages|
        invariant if i < |chunks| then retlen == i * 512 < len else retlen >= len
        invariant WriteChunks(cfg, old(pages), worn, to / 512, chunks) ==
                  WriteChunks(cfg, pages, worn, page, chunks[i..])
      {
        var cnt := if len >= OOB_BLOCK then OOB_BLOCK else len - retlen;
        ChunkAt(buf[bpos..], len, i);
        assert buf[bpos + retlen..bpos + retlen + cnt] == chunks[i];
        PageCount(len, i + 1);
        WriteStep(cfg, pages, worn, page, chunks, i);
        var ok := WriteOne(page, cnt, buf, bpos + retlen, ecc);
        if !ok {
          return -1, retlen;
        }
        retlen := retlen + cnt;
        page := page + 1;
        i := i + 1;
      }
      WriteEnd(cfg, pages, worn, page, chunks);
      return 0, len;
    }

    // ---------------------------------------------------------------- bad blocks and the transfer loop

    function Sizes(): Geometry {
      Geometry(cfg, erasesize, totlen, worn)
    }

    /** Reads one out-of-band byte; the low bits of `ofs` select it. */
    method ReadOob(ofs: nat) returns (x: bv8)
      requires Valid() && ofs / 512 < |pages| && ofs % 512 < OOB_SIZE
      ensures x == pages[ofs / 512][OOB_BLOCK + ofs % 512]
    {
      x := pages[ofs / 512][OOB_BLOCK + ofs % 512];
    }

    /** Whether the block of `pos` is outside the device or marked bad on its first or second page. */
    method CheckBlock(pos: nat) returns (bad: bool)
      requires Valid()
      ensures Sizes().Fits(pages) && bad == Bad(Sizes(), pages, pos)
      ensures var first := pos / erasesize * (erasesize / 512);
              if pos >= totlen then bad
              else
                && first + 1 < |pages|
                && (bad <==>
                    && cfg.badblockPos != -1
                    && (pages[first][OOB_BLOCK + cfg.badblockPos] != 0xff ||
                        pages[first + 1][OOB_BLOCK + cfg.badblockPos] != 0xff))
    {
      hide BlockStart, ProperSizes;
      BadBytes(Sizes(), pages, pos);
      var page0 := BlockStart(Sizes(), pos);
      var page1 := page0 + OOB_BLOCK;
      if pos >= totlen {
        return true;
      }
      if cfg.badblockPos < 0 {
        return false;
      }
      BlockInside(Sizes(), pos);
      OobAddress(page0, cfg.badblockPos);
      OobAddress(page1, cfg.badblockPos);
      var x := ReadOob(page0 + cfg.badblockPos);
      if x != 0xff {
        return true;
      }
      x := ReadOob(page1 + cfg.badblockPos);
      return x != 0xff;
    }

    /** Fills the caller's memory with ones as far as the block of `start` reaches. */
    method FillOnes(start: nat, len: nat, buf: array<bv8>, at: nat) returns (n: nat)
      requires Valid() && len > 0 && at + len <= buf.Length
      modifies buf
      ensures Sizes().Valid() && n == Reach(Sizes(), start, len)
      ensures buf[..] == Splice(old(buf[..]), at, Blank(n))
    {
      hide BlockStart, Splice, Blank;
      var eblk := BlockStart(Sizes(), start);
      ghost var was := buf[..];
      n := 0;
      NothingSpliced(was, at);
      BlankMore(0);
      while n < len && start + n - eblk < erasesize
        invariant n <= Reach(Sizes(), start, len)
        invariant buf[..] == Splice(was, at, Blank(n))
      {
        BlankMore(n);
        SpliceOne(was, at, Blank(n), Blank(n + 1));
        buf[at + n] := 0xff;
        n := n + 1;
      }
    }

    /** Reads or writes one part that lies in a good block. */
    method MovePart(ghost j: Job, read: bool, start: nat, n: nat, buf: array<bv8>, bpos: nat, ecc: array<bv8>)
      returns (ret: int)
      requires Valid() && start % 512 == 0 && start + n <= totlen
      requires bpos + (if read then n else Fetched(n)) <= buf.Length
      requires j.g == Sizes() && j.isRead == read && j.locked == writeProtected
      requires ecc.Length == 6 && ecc != dataBuf && buf != dataBuf && ecc != buf
      modifies `pages, dataBuf, buf, ecc
      ensures Valid()
      ensures Moved(j, old(pages), start, n, old(buf[..]), bpos, Outcome(pages, buf[..], ret, bpos))
    {
      hide ReadData, ReadFails, WriteChunks, Chunks, Splice;
      RoomFor(start, n, |pages|);
      var count: nat;
      if read {
        ret, count := ReadEcc(start, n, buf, bpos, ecc);
      } else {
        assert buf[..][bpos..] == buf[bpos..];
        ret, count := WriteEcc(start, n, buf, bpos, ecc);
      }
    }

    /** Reads or writes `len` bytes from `start`, block by block: a bad block ends the transfer, is skipped, or is read
        as ones. Addresses have 32 bits, so skipping past the end goes on at the first block; it never ends if there is
        no good block at all. */
    method Rw(read: bool, mode: Mode, start: nat, len: nat, buf: array<bv8>, bpos: nat, ecc: array<bv8>)
      returns (ret: int, total: nat)
      requires Valid() && start < WORD_LIMIT && start % 512 == 0 && (mode == Fill ==> read)
      requires ecc.Length == 6 && ecc != dataBuf && buf != dataBuf && ecc != buf
      requires Room(Job(Sizes(), read, mode, writeProtected), pages, start, len, buf[..], bpos)
      requires mode == Skip && len > 0 ==> GoodBlocks(Sizes(), pages, 0) > 0
      modifies `pages, dataBuf, buf, ecc
      ensures Valid()
      ensures Outcome(pages, buf[..], ret, bpos + total) ==
              old(Finish(Job(Sizes(), read, mode, writeProtected), pages, start, len, buf[..], bpos))
      ensures ret == 0 ==> total == len
    {
      hide Plan, Bad, BlockStart, Reach, Room, Finish, Moved, Splice, GoodBlocks, Rounds, Onward, Heads;
      ghost var j := Job(Sizes(), read, mode, writeProtected);
      ghost var goal := Finish(j, pages, start, len, buf[..], bpos);
      MakeHeads(j, pages, start, len, buf[..], bpos);
      var pos: nat, rest: nat, at: nat := start, len, bpos;
      ret, total := 0, 0;
      var eblk := -1;
      while rest > 0
        invariant Valid() && total + rest == len && at == bpos + total && ret == 0
        invariant pos < WORD_LIMIT && (rest > 0 ==> pos % 512 == 0 && eblk != BlockStart(j.g, pos))
        invariant Heads(j, pages, pos, rest, buf[..], at, goal)
        invariant mode == Skip && len > 0 ==> GoodBlocks(j.g, pages, 0) > 0
        decreases rest, Rounds(j.g, pages, pos), WORD_LIMIT - pos
      {
        HeadsRoom(j, pages, pos, rest, buf[..], at, goal);
        StepFacts(j, pages, pos, rest, buf[..], at);
        if BlockStart(Sizes(), pos) != eblk {
          eblk := BlockStart(Sizes(), pos);
          var bad := CheckBlock(eblk);
          if bad {
            HeadsBad(j, pages, pos, rest, buf[..], at, goal);
            if mode == Fill {
              var n := FillOnes(pos, rest, buf, at);
              pos, at, total, rest := (pos + n) % WORD_LIMIT, at + n, total + n, rest - n;
              continue;
            } else if mode == Skip {
              pos := Onward(Sizes(), pos);
              continue;
            } else {
              ret := 1;
              break;
            }
          }
        }
        var n := Min(rest, eblk + erasesize - pos);
        ghost var before, buf0 := pages, buf[..];
        ret := MovePart(j, read, pos, n, buf, at, ecc);
        HeadsMoved(j, before, pos, rest, buf0, at, Outcome(pages, buf[..], ret, at), goal);
        if ret != 0 {
          break;
        }
        pos, at, total, rest := (pos + n) % WORD_LIMIT, at + n, total + n, rest - n;
      }
      if ret == 0 {
        HeadsRoom(j, pages, pos, rest, buf[..], at, goal);
      }
    }
  }

  lemma BlankMore(n: nat)
    ensures Blank(n + 1)[..n] == Blank(n) && Blank(n + 1)[n] == 0xff && Blank(0) == []
  {
  }

  lemma OobAddress(page: nat, at: nat)
    requires page % 512 == 0 && at < OOB_SIZE
    ensures (page + at) / 512 == page / 512 && (page + at) % 512 == at
    ensures (page + 512) % 512 == 0 && (page + 512) / 512 == page / 512 + 1
  {
  }
}
