/** Page access and bad-block handling of the NAND driver over the ECC (u-boot-v1.2/common/cmd_nand.c),
    for chips with 512-byte pages. */
module NandPage {
  import opened NandEcc
  import opened NandEccTheorems

  const OOB_BLOCK: nat := 512
  const OOB_SIZE: nat := 16
  const PAGE_LENGTH: nat := 528

  /** Where the driver keeps what in the out-of-band bytes; -1 stands for an inactive position. */
  datatype OobConfig = OobConfig(eccPos: seq<nat>, badblockPos: int, eccvalidPos: int)
  {
    predicate Valid() {
      && |eccPos| == 6
      && (forall i :: 0 <= i < 6 ==> eccPos[i] < OOB_SIZE && eccPos[i] != badblockPos && eccPos[i] != eccvalidPos)
      && (forall i, j :: 0 <= i < j < 6 ==> eccPos[i] != eccPos[j])
      && -1 <= badblockPos < OOB_SIZE
      && -1 <= eccvalidPos < OOB_SIZE
      && (badblockPos == -1 || badblockPos != eccvalidPos)
    }
  }

  type Page = p: seq<bv8> | |p| == PAGE_LENGTH witness seq(PAGE_LENGTH, _ => 0)

  function Blank(n: nat): (r: seq<bv8>)
    ensures |r| == n && forall i :: 0 <= i < n ==> r[i] == 0xff
  {
    seq(n, _ => 0xff)
  }

  /** Programming only clears bits. */
  function Program(page: Page, image: Page): (r: Page)
    ensures forall i :: 0 <= i < PAGE_LENGTH ==> r[i] == page[i] & image[i]
  {
    seq(PAGE_LENGTH, i requires 0 <= i < PAGE_LENGTH => page[i] & image[i])
  }

  // ---------------------------------------------------------------- the image of a page

  /** The out-of-band bytes with the code of half `h` and its mark put in. */
  function WithCode(cfg: OobConfig, oob: seq<bv8>, h: nat, code: Code, valid: bv8): (r: seq<bv8>)
    requires cfg.Valid() && |oob| == OOB_SIZE && h < 2
    ensures |r| == OOB_SIZE
  {
    var e := oob[cfg.eccPos[3 * h] := code.c0][cfg.eccPos[3 * h + 1] := code.c1][cfg.eccPos[3 * h + 2] := code.c2];
    if cfg.eccvalidPos == -1 then e else e[cfg.eccvalidPos := valid]
  }

  /** The out-of-band bytes with the code of the first half, if `chunk` fills it. */
  function FirstOob(cfg: OobConfig, chunk: seq<bv8>): (r: seq<bv8>)
    requires cfg.Valid() && |chunk| <= OOB_BLOCK
    ensures |r| == OOB_SIZE
  {
    if |chunk| >= BLOCK_SIZE then WithCode(cfg, Blank(OOB_SIZE), 0, CodeOf(chunk[..BLOCK_SIZE]), 0xf0)
    else Blank(OOB_SIZE)
  }

  /** The out-of-band bytes written with `chunk`: a code for each half that `chunk` fills. */
  function OobImage(cfg: OobConfig, chunk: seq<bv8>): (r: seq<bv8>)
    requires cfg.Valid() && |chunk| <= OOB_BLOCK
    ensures |r| == OOB_SIZE
  {
    var first := FirstOob(cfg, chunk);
    if |chunk| == OOB_BLOCK then
      WithCode(cfg, first, 1, CodeOf(chunk[BLOCK_SIZE..]),
               if cfg.eccvalidPos == -1 then 0xf0 else first[cfg.eccvalidPos] & 0x0f)
    else first
  }

  /** What is sent to the chip for a page whose first bytes are `chunk`. */
  function PageImage(cfg: OobConfig, chunk: seq<bv8>): (r: Page)
    requires cfg.Valid() && |chunk| <= OOB_BLOCK
  {
    chunk + Blank(OOB_BLOCK - |chunk|) + OobImage(cfg, chunk)
  }

  // ---------------------------------------------------------------- reading a page

  function CodeIn(cfg: OobConfig, page: Page, h: nat): Code
    requires cfg.Valid() && h < 2
  {
    CodeFrom(cfg, page[OOB_BLOCK..], h)
  }

  /** Half `h` of the page with the code stored for it. */
  function HalfOf(cfg: OobConfig, page: Page, h: nat): (s: Stored)
    requires cfg.Valid() && h < 2
    ensures |s.block| == BLOCK_SIZE
  {
    Stored(page[h * BLOCK_SIZE..(h + 1) * BLOCK_SIZE], CodeIn(cfg, page, h))
  }

  function NibbleMask(h: nat): bv8 {
    if h == 0 then 0x0f else 0xf0
  }

  /** Whether the mark byte says that half `h` was written with a code. */
  predicate Coded(cfg: OobConfig, page: Page, h: nat)
    requires cfg.Valid()
  {
    cfg.eccvalidPos != -1 && page[OOB_BLOCK + cfg.eccvalidPos] & NibbleMask(h) != NibbleMask(h)
  }

  /** Half `h` as handed to the reader: corrected if it has a code, as it is otherwise. */
  function ReadHalf(cfg: OobConfig, page: Page, h: nat): (r: Correction)
    requires cfg.Valid() && h < 2
    ensures |r.block| == BLOCK_SIZE
  {
    var s := HalfOf(cfg, page, h);
    if Coded(cfg, page, h) then Read(s) else Correction(0, s.block, s.code)
  }

  function PageData(cfg: OobConfig, page: Page): (r: seq<bv8>)
    requires cfg.Valid()
    ensures |r| == OOB_BLOCK
  {
    ReadHalf(cfg, page, 0).block + ReadHalf(cfg, page, 1).block
  }

  predicate PageFails(cfg: OobConfig, page: Page)
    requires cfg.Valid()
  {
    ReadHalf(cfg, page, 0).status == -1 || ReadHalf(cfg, page, 1).status == -1
  }

  // ---------------------------------------------------------------- a page survives one flipped bit in each half

  /** The bytes that a write of the page uses are all ones. */
  predicate Erased(cfg: OobConfig, page: Page)
    requires cfg.Valid()
  {
    && (forall i :: 0 <= i < OOB_BLOCK ==> page[i] == 0xff)
    && (forall i :: 0 <= i < 6 ==> page[OOB_BLOCK + cfg.eccPos[i]] == 0xff)
    && (cfg.eccvalidPos != -1 ==> page[OOB_BLOCK + cfg.eccvalidPos] == 0xff)
  }

  /** Half `h` of `after` is half `h` of `before` with at most one bit of its data or its code flipped. The mark
      must still be readable; a half without a code must be intact. */
  ghost predicate HalfTolerable(cfg: OobConfig, before: Page, after: Page, h: nat)
    requires cfg.Valid() && h < 2
  {
    && Coded(cfg, after, h) == Coded(cfg, before, h)
    && var s, t := HalfOf(cfg, before, h), HalfOf(cfg, after, h);
    if Coded(cfg, before, h) then t == s || exists f: Flip | f.Valid() :: t == Disturb(s, f)
    else t.block == s.block
  }

  ghost predicate Tolerable(cfg: OobConfig, before: Page, after: Page)
    requires cfg.Valid()
  {
    HalfTolerable(cfg, before, after, 0) && HalfTolerable(cfg, before, after, 1)
  }

  lemma AllOnes(x: bv8)
    ensures 0xff & x == x
    ensures x & 0xff == x
  {
  }

  /** Programming an erased page leaves the image in every byte the write uses. */
  lemma ProgramErased(cfg: OobConfig, page: Page, image: Page, h: nat)
    requires cfg.Valid() && Erased(cfg, page) && h < 2
    ensures HalfOf(cfg, Program(page, image), h) == HalfOf(cfg, image, h)
    ensures Coded(cfg, Program(page, image), h) == Coded(cfg, image, h)
  {
    var r := Program(page, image);
    forall i | 0 <= i < PAGE_LENGTH && page[i] == 0xff ensures r[i] == image[i] {
      AllOnes(image[i]);
    }
    assert HalfOf(cfg, r, h).block == HalfOf(cfg, image, h).block;
  }

  predicate Fills(chunk: seq<bv8>, h: nat) {
    |chunk| >= (h + 1) * BLOCK_SIZE
  }

  function Padded(chunk: seq<bv8>): (r: seq<bv8>)
    requires |chunk| <= OOB_BLOCK
    ensures |r| == OOB_BLOCK
  {
    chunk + Blank(OOB_BLOCK - |chunk|)
  }

  lemma OobMark(cfg: OobConfig, chunk: seq<bv8>)
    requires cfg.Valid() && |chunk| <= OOB_BLOCK && cfg.eccvalidPos != -1
    ensures OobImage(cfg, chunk)[cfg.eccvalidPos] ==
            if |chunk| < BLOCK_SIZE then 0xff else if |chunk| < OOB_BLOCK then 0xf0 else 0
  {
    hide CodeOf;
  }

  function CodeFrom(cfg: OobConfig, oob: seq<bv8>, h: nat): Code
    requires cfg.Valid() && |oob| == OOB_SIZE && h < 2
  {
    Code(oob[cfg.eccPos[3 * h]], oob[cfg.eccPos[3 * h + 1]], oob[cfg.eccPos[3 * h + 2]])
  }

  lemma CodePutIn(cfg: OobConfig, oob: seq<bv8>, h: nat, code: Code, valid: bv8)
    requires cfg.Valid() && |oob| == OOB_SIZE && h < 2
    ensures CodeFrom(cfg, WithCode(cfg, oob, h, code, valid), h) == code
    ensures CodeFrom(cfg, WithCode(cfg, oob, h, code, valid), 1 - h) == CodeFrom(cfg, oob, 1 - h)
  {
    var p := cfg.eccPos;
    assert p[3 * h] != p[3 * h + 1] && p[3 * h + 1] != p[3 * h + 2] && p[3 * h] != p[3 * h + 2];
    assert forall i :: 0 <= i < 3 ==> p[i] != p[3] && p[i] != p[4] && p[i] != p[5];
  }

  lemma OobCode(cfg: OobConfig, chunk: seq<bv8>, h: nat)
    requires cfg.Valid() && |chunk| <= OOB_BLOCK && h < 2 && Fills(chunk, h)
    ensures CodeFrom(cfg, OobImage(cfg, chunk), h) ==
            CodeOf(if h == 0 then chunk[..BLOCK_SIZE] else chunk[BLOCK_SIZE..])
  {
    var first := FirstOob(cfg, chunk);
    CodePutIn(cfg, Blank(OOB_SIZE), 0, CodeOf(chunk[..BLOCK_SIZE]), 0xf0);
    if |chunk| == OOB_BLOCK {
      CodePutIn(cfg, first, 1, CodeOf(chunk[BLOCK_SIZE..]),
                if cfg.eccvalidPos == -1 then 0xf0 else first[cfg.eccvalidPos] & 0x0f);
    }
  }

  lemma NibbleTests(h: nat)
    requires h < 2
    ensures (0xff & NibbleMask(h)) == NibbleMask(h)
    ensures (0xf0 & NibbleMask(h)) == NibbleMask(h) <==> h == 1
    ensures (0x00 & NibbleMask(h)) != NibbleMask(h)
  {
  }

  lemma ImageMark(cfg: OobConfig, chunk: seq<bv8>, h: nat)
    requires cfg.Valid() && |chunk| <= OOB_BLOCK && h < 2
    ensures Coded(cfg, PageImage(cfg, chunk), h) == (cfg.eccvalidPos != -1 && Fills(chunk, h))
  {
    if cfg.eccvalidPos != -1 {
      assert PageImage(cfg, chunk)[OOB_BLOCK + cfg.eccvalidPos] == OobImage(cfg, chunk)[cfg.eccvalidPos];
      OobMark(cfg, chunk);
      NibbleTests(h);
    }
  }

  /** A half that the chunk fills is written with its code; the mark says which halves are. */
  lemma ImageHalf(cfg: OobConfig, chunk: seq<bv8>, h: nat)
    requires cfg.Valid() && |chunk| <= OOB_BLOCK && h < 2
    ensures var s := HalfOf(cfg, PageImage(cfg, chunk), h);
            && s.block == Padded(chunk)[h * BLOCK_SIZE..(h + 1) * BLOCK_SIZE]
            && (Fills(chunk, h) ==> s == Intact(s.block))
  {
    hide CodeOf, OobImage;
    var image := PageImage(cfg, chunk);
    assert image == Padded(chunk) + OobImage(cfg, chunk);
    assert forall i :: 0 <= i < OOB_SIZE ==> image[OOB_BLOCK + i] == OobImage(cfg, chunk)[i];
    var block := image[h * BLOCK_SIZE..(h + 1) * BLOCK_SIZE];
    assert block == Padded(chunk)[h * BLOCK_SIZE..(h + 1) * BLOCK_SIZE];
    if Fills(chunk, h) {
      assert block == if h == 0 then chunk[..BLOCK_SIZE] else chunk[BLOCK_SIZE..];
      OobCode(cfg, chunk, h);
    }
  }

  /** The page round trip: what was written is read back, whatever single bit of each half was flipped since. */
  lemma PageRoundTrip(cfg: OobConfig, page: Page, chunk: seq<bv8>, after: Page)
    requires cfg.Valid() && Erased(cfg, page) && |chunk| <= OOB_BLOCK
    requires Tolerable(cfg, Program(page, PageImage(cfg, chunk)), after)
    ensures PageData(cfg, after) == Padded(chunk)
    ensures !PageFails(cfg, after)
  {
    hide ReadHalf;
    HalfRoundTrip(cfg, page, chunk, after, 0);
    HalfRoundTrip(cfg, page, chunk, after, 1);
    assert Padded(chunk) == Padded(chunk)[0 * BLOCK_SIZE..1 * BLOCK_SIZE] +
                            Padded(chunk)[1 * BLOCK_SIZE..2 * BLOCK_SIZE];
  }

  lemma HalfRoundTrip(cfg: OobConfig, page: Page, chunk: seq<bv8>, after: Page, h: nat)
    requires cfg.Valid() && Erased(cfg, page) && |chunk| <= OOB_BLOCK && h < 2
    requires HalfTolerable(cfg, Program(page, PageImage(cfg, chunk)), after, h)
    ensures ReadHalf(cfg, after, h).block == Padded(chunk)[h * BLOCK_SIZE..(h + 1) * BLOCK_SIZE]
    ensures ReadHalf(cfg, after, h).status != -1
  {
    hide Read, CodeOf, PageImage, Program;
    var before := Program(page, PageImage(cfg, chunk));
    ProgramErased(cfg, page, PageImage(cfg, chunk), h);
    ImageHalf(cfg, chunk, h);
    ImageMark(cfg, chunk, h);
    var s, t := HalfOf(cfg, before, h), HalfOf(cfg, after, h);
    if Coded(cfg, before, h) {
      if t == s {
        NoFlipNoChange(s.block);
      } else {
        var f: Flip :| f.Valid() && t == Disturb(s, f);
        SingleFlipRepaired(s.block, f);
      }
    }
  }

  // ---------------------------------------------------------------- which damage a page reports

  /** What has happened to a half and its code since they were written. */
  datatype Damage = Unharmed | OneFlip(f: Flip) | TwoFlips(f: Flip, g: Flip)
  {
    ghost predicate Valid() {
      match this
      case Unharmed => true
      case OneFlip(f) => f.Valid()
      case TwoFlips(f, g) => f.Valid() && g.Valid() && f != g
    }

    /** Two flips are too much, but for a data bit together with a constant bit of the code. */
    predicate Fatal() {
      TwoFlips? && !(f.DataBit? && !g.Significant()) && !(g.DataBit? && !f.Significant())
    }
  }

  function Harmed(s: Stored, d: Damage): Stored
    requires |s.block| == BLOCK_SIZE && d.Valid()
  {
    match d
    case Unharmed => s
    case OneFlip(f) => Disturb(s, f)
    case TwoFlips(f, g) => Disturb(Disturb(s, f), g)
  }

  /** Half `h` was written with `chunk` to an erased page, and has suffered `d` since; the mark is readable. */
  ghost predicate Suffered(cfg: OobConfig, page: Page, chunk: seq<bv8>, after: Page, h: nat, d: Damage)
    requires cfg.Valid() && |chunk| <= OOB_BLOCK && h < 2
  {
    var before := Program(page, PageImage(cfg, chunk));
    d.Valid() && Coded(cfg, after, h) == Coded(cfg, before, h)
    && HalfOf(cfg, after, h) == Harmed(HalfOf(cfg, before, h), d)
  }

  /** A half written with its code is reported exactly if its damage is fatal, and put right exactly if it is not. */
  lemma HalfVerdict(cfg: OobConfig, page: Page, chunk: seq<bv8>, after: Page, h: nat, d: Damage)
    requires cfg.Valid() && cfg.eccvalidPos != -1 && Erased(cfg, page) && |chunk| <= OOB_BLOCK && h < 2
    requires Fills(chunk, h) && Suffered(cfg, page, chunk, after, h, d)
    ensures ReadHalf(cfg, after, h).status == -1 <==> d.Fatal()
    ensures !d.Fatal() ==> ReadHalf(cfg, after, h).block == chunk[h * BLOCK_SIZE..(h + 1) * BLOCK_SIZE]
    ensures d.Fatal() ==> ReadHalf(cfg, after, h).block == after[h * BLOCK_SIZE..(h + 1) * BLOCK_SIZE]
  {
    hide Read, CodeOf, PageImage, Program, Disturb;
    ProgramErased(cfg, page, PageImage(cfg, chunk), h);
    ImageHalf(cfg, chunk, h);
    ImageMark(cfg, chunk, h);
    var block := chunk[h * BLOCK_SIZE..(h + 1) * BLOCK_SIZE];
    assert Padded(chunk)[h * BLOCK_SIZE..(h + 1) * BLOCK_SIZE] == block;
    match d {
      case Unharmed => NoFlipNoChange(block);
      case OneFlip(f) => SingleFlipRepaired(block, f);
      case TwoFlips(f, g) => DoubleFlipDetected(block, f, g);
    }
  }

  /** A whole page whose halves have suffered up to two flips each is reported exactly if one of them, whichever it
      is, has suffered a fatal pair. */
  lemma PageVerdict(cfg: OobConfig, page: Page, chunk: seq<bv8>, after: Page, d0: Damage, d1: Damage)
    requires cfg.Valid() && cfg.eccvalidPos != -1 && Erased(cfg, page) && |chunk| == OOB_BLOCK
    requires Suffered(cfg, page, chunk, after, 0, d0) && Suffered(cfg, page, chunk, after, 1, d1)
    ensures PageFails(cfg, after) <==> d0.Fatal() || d1.Fatal()
  {
    hide ReadHalf, Suffered;
    HalfVerdict(cfg, page, chunk, after, 0, d0);
    HalfVerdict(cfg, page, chunk, after, 1, d1);
  }

  /** A fatal pair in either half of a whole page is reported, whatever has become of the other half. */
  lemma LostHalfReported(cfg: OobConfig, page: Page, chunk: seq<bv8>, after: Page, h: nat, d: Damage)
    requires cfg.Valid() && cfg.eccvalidPos != -1 && Erased(cfg, page) && |chunk| <= OOB_BLOCK && h < 2
    requires Fills(chunk, h) && Suffered(cfg, page, chunk, after, h, d) && d.Fatal()
    ensures PageFails(cfg, after)
  {
    hide ReadHalf, Suffered;
    HalfVerdict(cfg, page, chunk, after, h, d);
  }

  /** A half counts as written with a code exactly if not all four bits of its nibble of the mark are set. */
  lemma CodedNibble(cfg: OobConfig, page: Page)
    requires cfg.Valid() && cfg.eccvalidPos != -1
    ensures var mark := page[OOB_BLOCK + cfg.eccvalidPos];
            && (Coded(cfg, page, 0) <==> mark & 0x0f != 0x0f)
            && (Coded(cfg, page, 1) <==> mark & 0xf0 != 0xf0)
  {
  }

  /** A flipped bit in the mark of a whole page does not keep its halves from being corrected. */
  lemma MarkSurvives(cfg: OobConfig, page: Page, chunk: seq<bv8>, after: Page, k: nat, h: nat)
    requires cfg.Valid() && cfg.eccvalidPos != -1 && Erased(cfg, page) && |chunk| == OOB_BLOCK && k < 8 && h < 2
    requires after[OOB_BLOCK + cfg.eccvalidPos] ==
             XorByte(Program(page, PageImage(cfg, chunk))[OOB_BLOCK + cfg.eccvalidPos], Bit(k))
    ensures Coded(cfg, after, h)
  {
    hide CodeOf;
    OobMark(cfg, chunk);
    assert PageImage(cfg, chunk)[OOB_BLOCK + cfg.eccvalidPos] == OobImage(cfg, chunk)[cfg.eccvalidPos] == 0;
    hide PageImage, Program, OobImage, Erased;
    CodedNibble(cfg, after);
    AllOnes(0);
    OneBitSet(k);
  }

  lemma OneBitSet(k: nat)
    requires k < 8
    ensures XorByte(0, Bit(k)) & 0x0f != 0x0f && XorByte(0, Bit(k)) & 0xf0 != 0xf0
  {
  }

  /** Where the configuration has no mark, nothing is corrected or reported. */
  lemma UnmarkedPage(cfg: OobConfig, page: Page)
    requires cfg.Valid() && cfg.eccvalidPos == -1
    ensures PageData(cfg, page) == page[..OOB_BLOCK] && !PageFails(cfg, page)
  {
    assert page[..OOB_BLOCK] == page[0 * BLOCK_SIZE..1 * BLOCK_SIZE] + page[1 * BLOCK_SIZE..2 * BLOCK_SIZE];
  }

  /** Bytes the image leaves at 0xff keep their value: the bad-block mark is never touched. */
  lemma MarkKept(cfg: OobConfig, page: Page, chunk: seq<bv8>)
    requires cfg.Valid() && |chunk| <= OOB_BLOCK && cfg.badblockPos != -1
    ensures Program(page, PageImage(cfg, chunk))[OOB_BLOCK + cfg.badblockPos] == page[OOB_BLOCK + cfg.badblockPos]
  {
    hide CodeOf;
    var x := page[OOB_BLOCK + cfg.badblockPos];
    assert OobImage(cfg, chunk)[cfg.badblockPos] == 0xff;
    assert PageImage(cfg, chunk)[OOB_BLOCK + cfg.badblockPos] == 0xff;
    AllOnes(x);
  }
}
