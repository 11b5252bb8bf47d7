/** Transfers to and from an I2C EEPROM, cut at the pages of the device (u-boot-v1.2/common/cmd_eeprom.c). */
module Eeprom {
  import opened Basics

  const BLOCK: nat := 256

  /** The sizes that matter: of a write page, and of the longest transfer on the bus. */
  datatype Sizes = Sizes(page: nat, rxtx: nat)
  {
    ghost predicate Valid() {
      page > 0 && rxtx > 0
    }
  }

  /** The length of the write that starts at `offset`. The place in the page comes from the low byte of the offset. */
  function WriteLength(z: Sizes, offset: nat, end: nat): nat
    requires z.Valid() && offset < end
  {
    Min(Min(z.page - (offset % BLOCK) % z.page, z.rxtx), end - offset)
  }

  function ReadLength(z: Sizes, offset: nat, end: nat): nat
    requires z.Valid() && offset < end
  {
    Min(Min(BLOCK - offset % BLOCK, z.rxtx), end - offset)
  }

  /** A transfer of `len` bytes from `offset` stays within one page of the given size. */
  predicate WithinPage(page: nat, offset: nat, len: nat)
    requires page > 0
  {
    offset % page + len <= page
  }

  lemma ModOfMod(x: nat, page: nat, blocks: nat)
    requires page > 0 && BLOCK == page * blocks
    ensures (x % BLOCK) % page == x % page
  {
    var q, r := x / BLOCK, x % BLOCK;
    assert x == BLOCK * q + r && BLOCK * q == page * (blocks * q);
    var s := r / page;
    assert r == page * s + r % page;
    assert page * (blocks * q) + page * s == page * (blocks * q + s);
    DivIs(x, page, blocks * q + s, r % page);
  }

  /** Writes never cross a page if the pages divide a block of 256 bytes. */
  lemma WritesStayInPage(z: Sizes, offset: nat, end: nat, blocks: nat)
    requires z.Valid() && offset < end && BLOCK == z.page * blocks
    ensures 0 < WriteLength(z, offset, end) <= z.rxtx && offset + WriteLength(z, offset, end) <= end
    ensures WithinPage(z.page, offset, WriteLength(z, offset, end))
  {
    ModOfMod(offset, z.page, blocks);
  }

  /** With pages of whole blocks the place in the page is misjudged in every block but the first: no write from
      `offset` crosses the end of the page exactly if `offset` lies in the first block of its page, or the bus cannot
      carry enough bytes to get there. */
  lemma LargePagesCrossed(z: Sizes, blocks: nat, offset: nat)
    requires z.Valid() && z.page == BLOCK * blocks
    ensures (forall end :: end > offset ==> WithinPage(z.page, offset, WriteLength(z, offset, end))) <==>
            offset % z.page < BLOCK || offset % z.page + z.rxtx <= z.page
  {
    var p, low, inner := z.page, offset % BLOCK, offset % z.page;
    BlockInPage(offset, blocks);
    assert low < BLOCK <= p by { TimesOrder(1, blocks, BLOCK); }
    DivIs(low, p, 0, low);
    if inner >= BLOCK && inner + z.rxtx > p {
      var end := offset + p;
      assert WriteLength(z, offset, end) == Min(p - low, z.rxtx);
      assert !WithinPage(p, offset, WriteLength(z, offset, end));
    }
  }

  /** With pages of 512 bytes and the bus length of 128 bytes, exactly the last 127 places of a page are unsafe; a
      write of 128 bytes from place 400 reaches 16 bytes into the next page. */
  lemma LargePageExample(offset: nat)
    ensures (forall end :: end > offset ==> WithinPage(512, offset, WriteLength(Sizes(512, 128), offset, end))) <==>
            offset % 512 <= 384
    ensures WriteLength(Sizes(512, 128), 400, 528) == 128 && !WithinPage(512, 400, 128)
  {
    LargePagesCrossed(Sizes(512, 128), 2, offset);
  }

  lemma BlockInPage(offset: nat, blocks: nat)
    requires blocks > 0
    ensures offset % (BLOCK * blocks) < BLOCK ==> offset % BLOCK == offset % (BLOCK * blocks)
    ensures offset % BLOCK < BLOCK
  {
    var p := BLOCK * blocks;
    var q, r := offset / p, offset % p;
    assert offset == p * q + r && p * q == BLOCK * (blocks * q);
    if r < BLOCK {
      DivIs(offset, BLOCK, blocks * q, r);
    }
  }

  lemma ReadsStayInBlock(z: Sizes, offset: nat, end: nat)
    requires z.Valid() && offset < end
    ensures 0 < ReadLength(z, offset, end) <= z.rxtx && offset + ReadLength(z, offset, end) <= end
    ensures WithinPage(BLOCK, offset, ReadLength(z, offset, end))
  {
  }

  /** Where the address counter of a device goes next: at the end of a page, back to its start. */
  function NextInPage(page: nat, at: nat): nat
    requires page > 0
  {
    if at % page == page - 1 then at - (page - 1) else at + 1
  }

  lemma NextInside(page: nat, start: nat, i: nat)
    requires page > 0 && start % page + i + 1 < page
    ensures (start + i) % page == start % page + i && NextInPage(page, start + i) == start + i + 1
  {
    var q := start / page;
    assert start == page * q + start % page;
    DivIs(start + i, page, q, start % page + i);
  }

  class Device {
    const sizes: Sizes
    var cells: seq<int>

    ghost predicate Valid()
      reads this
    {
      sizes.Valid()
    }

    constructor (sizes: Sizes, cells: seq<int>)
      requires sizes.Valid()
      ensures Valid() && this.sizes == sizes && this.cells == cells
    {
      this.sizes, this.cells := sizes, cells;
    }

    /** One write on the bus: the device stores the bytes, its address counter turning round at the end of a page. */
    method I2cWrite(offset: nat, buffer: array<int>, from: nat, len: nat)
      requires Valid() && from + len <= buffer.Length && offset + len <= |cells|
      requires len > 0 && WithinPage(sizes.page, offset, len)
      modifies this
      ensures Valid() && cells == Splice(old(cells), offset, buffer[from..from + len])
    {
      hide Splice, NextInPage;
      var at := offset;
      NothingSpliced(cells, offset);
      SpliceOne(cells, offset, [], buffer[from..from + 1]);
      cells := cells[at := buffer[from]];
      for i := 1 to len
        invariant at == offset + i - 1 && |cells| == |old(cells)|
        invariant cells == Splice(old(cells), offset, buffer[from..from + i])
      {
        NextInside(sizes.page, offset, i - 1);
        at := NextInPage(sizes.page, at);
        SpliceOne(old(cells), offset, buffer[from..from + i], buffer[from..from + i + 1]);
        cells := cells[at := buffer[from + i]];
      }
    }

    /** One read on the bus; the address counter turns round at the end of a block. */
    method I2cRead(offset: nat, buffer: array<int>, to: nat, len: nat)
      requires Valid() && to + len <= buffer.Length && offset + len <= |cells|
      requires len > 0 && WithinPage(BLOCK, offset, len)
      modifies buffer
      ensures buffer[..] == Splice(old(buffer[..]), to, cells[offset..offset + len])
    {
      hide Splice, NextInPage;
      var at := offset;
      ghost var was := buffer[..];
      NothingSpliced(was, to);
      SpliceOne(was, to, [], cells[offset..offset + 1]);
      buffer[to] := cells[at];
      for i := 1 to len
        invariant at == offset + i - 1
        invariant buffer[..] == Splice(was, to, cells[offset..offset + i])
      {
        NextInside(BLOCK, offset, i - 1);
        at := NextInPage(BLOCK, at);
        SpliceOne(was, to, cells[offset..offset + i], cells[offset..offset + i + 1]);
        buffer[to + i] := cells[at];
      }
    }

    /** Writes a buffer from `offset` on, whatever pages it covers. */
    method EepromWrite(offset0: nat, buffer: array<int>, cnt: nat, ghost blocks: nat)
      requires Valid() && cnt <= buffer.Length && offset0 + cnt <= |cells| && BLOCK == sizes.page * blocks
      modifies this
      ensures Valid() && cells == Splice(old(cells), offset0, buffer[..cnt])
    {
      hide Splice, WriteLength;
      var end, offset, done := offset0 + cnt, offset0, 0;
      NothingSpliced(cells, offset0);
      assert buffer[..0] == [];
      while offset < end
        invariant Valid() && offset == offset0 + done && done <= cnt
        invariant |cells| == |old(cells)| && cells == Splice(old(cells), offset0, buffer[..done])
        decreases end - offset
      {
        WritesStayInPage(sizes, offset, end, blocks);
        var len := WriteLength(sizes, offset, end);
        SpliceTwice(old(cells), offset0, buffer[..done], buffer[done..done + len]);
        assert buffer[..done] + buffer[done..done + len] == buffer[..done + len];
        I2cWrite(offset, buffer, done, len);
        done, offset := done + len, offset + len;
      }
    }

    /** Reads from `offset` on into a buffer. */
    method EepromRead(offset0: nat, buffer: array<int>, cnt: nat)
      requires Valid() && cnt <= buffer.Length && offset0 + cnt <= |cells|
      modifies buffer
      ensures buffer[..] == Splice(old(buffer[..]), 0, cells[offset0..offset0 + cnt])
    {
      hide Splice, ReadLength;
      var end, offset, done := offset0 + cnt, offset0, 0;
      ghost var was := buffer[..];
      NothingSpliced(was, 0);
      assert cells[offset0..offset0 + 0] == [];
      while offset < end
        invariant offset == offset0 + done && done <= cnt
        invariant buffer[..] == Splice(was, 0, cells[offset0..offset0 + done])
        decreases end - offset
      {
        ReadsStayInBlock(sizes, offset, end);
        var len := ReadLength(sizes, offset, end);
        SpliceTwice(was, 0, cells[offset0..offset], cells[offset..offset + len]);
        assert cells[offset0..offset] + cells[offset..offset + len] == cells[offset0..offset + len];
        I2cRead(offset, buffer, done, len);
        done, offset := done + len, offset + len;
      }
    }
  }
}
