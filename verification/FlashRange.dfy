/** Which flash sectors an address range selects, and protecting them (u-boot-v1.2/common/cmd_flash.c). */
module FlashRange {
  import opened Basics

  /** A bank as it is mapped: where its sectors start, and its size. */
  datatype Layout = Layout(known: bool, start: seq<nat>, size: nat)
  {
    ghost predicate Valid() {
      known ==>
        && 0 < |start| < 0x8000 && 0 < size && start[0] + size <= WORD_LIMIT
        && (forall i, j :: 0 <= i < j < |start| ==> start[i] < start[j])
        && start[|start| - 1] < start[0] + size
    }

    function BankEnd(): int
      requires start != []
    {
      start[0] + size - 1
    }

    /** The last address of sector `s`. */
    function End(s: nat): int
      requires s < |start|
    {
      if s == |start| - 1 then BankEnd() else start[s + 1] as int - 1
    }
  }

  ghost predicate AllValid(ls: seq<Layout>) {
    forall l :: l in ls ==> l.Valid()
  }

  /** The sector among the first `n` that starts at an address, or -1. */
  function StartsAt(l: Layout, a: nat, n: nat): (s: int)
    requires n <= |l.start|
    ensures -1 <= s < n && (s >= 0 ==> l.start[s] == a)
    ensures s == -1 ==> forall k :: 0 <= k < n ==> l.start[k] != a
  {
    if n == 0 then -1 else if l.start[n - 1] == a then n - 1 else StartsAt(l, a, n - 1)
  }

  /** The sector among the first `n` that ends at an address, or -1. */
  function EndsAt(l: Layout, a: nat, n: nat): (s: int)
    requires n <= |l.start|
    ensures -1 <= s < n && (s >= 0 ==> l.End(s) == a)
    ensures s == -1 ==> forall k :: 0 <= k < n ==> l.End(k) != a
  {
    if n == 0 then -1 else if l.End(n - 1) == a then n - 1 else EndsAt(l, a, n - 1)
  }

  // ---------------------------------------------------------------- choosing sectors

  datatype Range = Empty | Sectors(first: nat, last: nat)

  /** What is chosen in one bank; an error names no sectors. */
  datatype Pick = Wrong | Nothing | Picked(first: nat, last: nat)

  function PickIn(l: Layout, first: nat, last: nat): (p: Pick)
    requires l.Valid()
    ensures p.Picked? ==> l.known && p.first < |l.start| && p.last < |l.start|
  {
    if !l.known then Nothing
    else
      var sf, sl := StartsAt(l, first, |l.start|), EndsAt(l, last, |l.start|);
      if sf >= 0 then
        if sl >= 0 then (if sl < sf then Wrong else Picked(sf, sl))
        else if last > l.BankEnd() then Picked(sf, |l.start| - 1)
        else Wrong
      else if sl >= 0 then Wrong
      else Nothing
  }

  /** The choice in several banks: whether it succeeds, the sectors of each bank, their number, and the address the
      search stands at when it ends. */
  datatype Choice = Choice(ok: bool, ranges: seq<Range>, count: nat, next: nat)

  function Empties(n: nat): seq<Range> {
    seq(n, _ => Empty)
  }

  function RangeOf(p: Pick): Range {
    if p.Picked? then Sectors(p.first, p.last) else Empty
  }

  function Size(r: Range): nat {
    if r.Sectors? && r.first <= r.last then r.last - r.first + 1 else 0
  }

  /** One past what is picked, or where the search stands if nothing is. */
  function Beyond(l: Layout, p: Pick, first: nat): (a: nat)
    requires l.Valid() && (p.Picked? ==> l.known && p.last < |l.start|)
    ensures p.Picked? ==> a == l.End(p.last) + 1
    ensures !p.Picked? ==> a == first
  {
    if p.Picked? then SectorsInside(l, p.last); l.End(p.last) + 1 else first
  }

  function Choose(ls: seq<Layout>, first: nat, last: nat): (c: Choice)
    requires AllValid(ls)
    ensures |c.ranges| == |ls|
  {
    if ls == [] || first > last then Choice(true, Empties(|ls|), 0, first)
    else
      var l := ls[0];
      var p := PickIn(l, first, last);
      if p.Wrong? then Choice(false, Empties(|ls|), 0, first)
      else
        var rest := Choose(ls[1..], if p.Picked? then Beyond(l, p, first) % WORD_LIMIT else first, last);
        Choice(rest.ok, [RangeOf(p)] + rest.ranges, Size(RangeOf(p)) + rest.count, rest.next)
  }

  // ---------------------------------------------------------------- what has been chosen

  predicate InSector(l: Layout, s: nat, a: nat)
    requires s < |l.start|
  {
    l.start[s] <= a <= l.End(s)
  }

  ghost predicate InSectors(l: Layout, r: Range, a: nat) {
    r.Sectors? && r.last < |l.start| && exists s :: r.first <= s <= r.last && InSector(l, s, a)
  }

  ghost predicate Chosen(ls: seq<Layout>, ranges: seq<Range>, a: nat)
    requires |ls| == |ranges|
  {
    exists b :: 0 <= b < |ls| && InSectors(ls[b], ranges[b], a)
  }

  function Number(ranges: seq<Range>): nat {
    if ranges == [] then 0 else Size(ranges[0]) + Number(ranges[1..])
  }

  predicate ReachesTop(l: Layout) {
    l.known && l.start != [] && l.BankEnd() + 1 == WORD_LIMIT
  }

  predicate AtBottom(l: Layout) {
    l.known && l.start != [] && l.start[0] == 0
  }

  /** No bank at address 0 comes behind one that reaches the top of the address space. */
  ghost predicate NoWrap(ls: seq<Layout>) {
    forall i, j :: 0 <= i < j < |ls| ==> !(ReachesTop(ls[i]) && AtBottom(ls[j]))
  }

  /** One past the last address chosen; the search itself goes on at 0 after the top of the address space. */
  function Stop(c: Choice): nat {
    if c.count > 0 && c.next == 0 then WORD_LIMIT else c.next
  }

  lemma SectorsInside(l: Layout, s: nat)
    requires l.Valid() && l.known && s < |l.start|
    ensures l.start[0] <= l.start[s] <= l.End(s) <= l.BankEnd()
    ensures s + 1 < |l.start| ==> l.start[s + 1] == l.End(s) + 1
  {
    if s + 1 < |l.start| {
      assert l.start[s] < l.start[s + 1];
      assert l.start[s + 1] <= l.start[|l.start| - 1];
    }
    assert s > 0 ==> l.start[0] < l.start[s];
  }

  lemma InMore(l: Layout, sf: nat, sl: nat, a: nat)
    requires sf <= sl < |l.start|
    ensures InSectors(l, Sectors(sf, sl), a) <==>
            (sf < sl && InSectors(l, Sectors(sf, sl - 1), a)) || InSector(l, sl, a)
  {
    hide InSector;
  }

  /** Consecutive sectors cover the addresses from the start of the first to the end of the last. */
  lemma {:induction false} RunCovers(l: Layout, sf: nat, sl: nat, a: nat)
    requires l.Valid() && l.known && sf <= sl < |l.start|
    ensures InSectors(l, Sectors(sf, sl), a) <==> l.start[sf] <= a <= l.End(sl)
    decreases sl
  {
    hide InSectors;
    SectorsInside(l, sl);
    InMore(l, sf, sl, a);
    if sf < sl {
      RunCovers(l, sf, sl - 1, a);
      SectorsInside(l, sl - 1);
      OrderedStarts(l, sf, sl - 1);
    }
  }

  /** The end of a bank one of whose sectors starts at `first` and that ends before `last`, and the other cases of a
      pick. */
  lemma PickFacts(l: Layout, first: nat, last: nat)
    requires l.Valid() && first <= last && PickIn(l, first, last).Picked?
    ensures var p := PickIn(l, first, last);
            && p.first <= p.last && l.start[p.first] == first && first <= l.End(p.last) <= last
            && l.End(p.last) <= l.BankEnd()
            && (l.End(p.last) < last ==> l.End(p.last) == l.BankEnd())
  {
    var p := PickIn(l, first, last);
    SectorsInside(l, p.first);
    SectorsInside(l, p.last);
    OrderedStarts(l, p.first, p.last);
  }

  lemma OrderedStarts(l: Layout, i: nat, j: nat)
    requires l.Valid() && l.known && i <= j < |l.start|
    ensures l.start[i] <= l.start[j]
  {
  }

  lemma ChosenFirst(l: Layout, r: Range, ls: seq<Layout>, ranges: seq<Range>, a: nat)
    requires |ls| == |ranges|
    ensures Chosen([l] + ls, [r] + ranges, a) <==> InSectors(l, r, a) || Chosen(ls, ranges, a)
  {
    hide InSectors;
    var ls1, ranges1 := [l] + ls, [r] + ranges;
    if Chosen(ls1, ranges1, a) {
      var b :| 0 <= b < |ls1| && InSectors(ls1[b], ranges1[b], a);
      if b > 0 {
        assert InSectors(ls[b - 1], ranges[b - 1], a);
      }
    }
    if InSectors(l, r, a) {
      assert InSectors(ls1[0], ranges1[0], a);
    }
    if Chosen(ls, ranges, a) {
      var b :| 0 <= b < |ls| && InSectors(ls[b], ranges[b], a);
      assert InSectors(ls1[b + 1], ranges1[b + 1], a);
    }
  }

  lemma NoneChosen(ls: seq<Layout>, a: nat)
    ensures !Chosen(ls, Empties(|ls|), a)
  {
  }

  /** If no bank is at address 0, a search that has come round to it finds nothing more. */
  lemma {:induction false} NothingAtBottom(ls: seq<Layout>, last: nat)
    requires AllValid(ls) && (forall i :: 0 <= i < |ls| ==> !AtBottom(ls[i])) && Choose(ls, 0, last).ok
    ensures var c := Choose(ls, 0, last); c.count == 0 && c.next == 0 && c.ranges == Empties(|ls|)
    decreases |ls|
  {
    if ls != [] {
      var l := ls[0];
      assert l in ls;
      if l.known {
        NotAtStart(l);
      }
      NothingAtBottom(ls[1..], last);
      assert [Empty] + Empties(|ls| - 1) == Empties(|ls|);
    }
  }

  lemma NotAtStart(l: Layout)
    requires l.Valid() && l.known && !AtBottom(l)
    ensures StartsAt(l, 0, |l.start|) == -1
  {
    if StartsAt(l, 0, |l.start|) >= 0 {
      SectorsInside(l, StartsAt(l, 0, |l.start|));
    }
  }

  /** A successful choice: the sectors chosen cover exactly the addresses from the first one on up to where the search
      stops, never beyond the last, and their number is the count. */
  lemma {:induction false} ChoiceCovers(ls: seq<Layout>, first: nat, last: nat)
    requires AllValid(ls) && NoWrap(ls) && first <= last + 1 && last < WORD_LIMIT
    requires Choose(ls, first, last).ok
    ensures var c := Choose(ls, first, last);
            && first <= Stop(c) <= last + 1 && Number(c.ranges) == c.count
            && (c.count == 0 <==> Stop(c) == first)
            && forall a: nat :: Chosen(ls, c.ranges, a) <==> first <= a < Stop(c)
    decreases |ls|
  {
    hide InSectors, Chosen, PickIn, Number, Empties, Choose, NoWrap, AllValid, Size, Beyond, RangeOf;
    var c := Choose(ls, first, last);
    ChooseStep(ls, first, last);
    if ls == [] || first > last {
      NumberEmpties(|ls|);
      forall a: nat ensures !Chosen(ls, c.ranges, a) {
        NoneChosen(ls, a);
      }
    } else {
      var l, rest, p := ls[0], ls[1..], PickIn(ls[0], first, last);
      var from := Beyond(l, p, first);
      var d := Choose(rest, from % WORD_LIMIT, last);
      NumberFirst(RangeOf(p), d.ranges);
      WrapRest(ls);
      if from < WORD_LIMIT {
        ChoiceCovers(rest, from, last);
      } else {
        TopCovers(ls, p, last);
      }
      forall a: nat ensures Chosen(ls, c.ranges, a) <==> first <= a < Stop(c) {
        assert [l] + rest == ls;
        FirstCovers(l, rest, p, d.ranges, a);
      }
    }
  }

  lemma ChooseStep(ls: seq<Layout>, first: nat, last: nat)
    requires AllValid(ls) && last < WORD_LIMIT
    ensures ls == [] || first > last ==> Choose(ls, first, last) == Choice(true, Empties(|ls|), 0, first)
    ensures ls != [] && first <= last && Choose(ls, first, last).ok ==>
              && ls[0].Valid() && AllValid(ls[1..])
              && var p := PickIn(ls[0], first, last);
              && (p.Picked? ==> ls[0].known && p.first <= p.last < |ls[0].start| && ls[0].start[p.first] == first)
              && first <= Beyond(ls[0], p, first) <= last + 1 && (p.Picked? <==> Size(RangeOf(p)) > 0)
              && (p.Picked? ==> first < Beyond(ls[0], p, first))
              && var d := Choose(ls[1..], Beyond(ls[0], p, first) % WORD_LIMIT, last);
              Choose(ls, first, last) == Choice(d.ok, [RangeOf(p)] + d.ranges, Size(RangeOf(p)) + d.count, d.next)
  {
    hide Empties, PickIn, Size, Beyond, RangeOf;
    if ls != [] && first <= last {
      assert ls[0] in ls;
      PickGeometry(ls[0], first, last);
      assert first % WORD_LIMIT == first;
    }
  }

  lemma PickGeometry(l: Layout, first: nat, last: nat)
    requires l.Valid() && first <= last
    ensures var p := PickIn(l, first, last);
            && (p.Picked? ==> l.known && p.first <= p.last < |l.start| && l.start[p.first] == first)
            && first <= Beyond(l, p, first) <= last + 1 && (p.Picked? <==> Size(RangeOf(p)) > 0)
            && (p.Picked? ==> first < Beyond(l, p, first))
  {
    hide PickIn;
    var p := PickIn(l, first, last);
    if p.Picked? {
      PickFacts(l, first, last);
      SectorOrder(l, p.first, p.last);
    }
  }

  lemma WrapRest(ls: seq<Layout>)
    requires ls != [] && NoWrap(ls)
    ensures NoWrap(ls[1..])
  {
    forall i, j | 0 <= i < j < |ls[1..]| ensures !(ReachesTop(ls[1..][i]) && AtBottom(ls[1..][j])) {
      assert ls[1..][i] == ls[i + 1] && ls[1..][j] == ls[j + 1];
    }
  }

  lemma FirstCovers(l: Layout, rest: seq<Layout>, p: Pick, ranges: seq<Range>, a: nat)
    requires l.Valid() && |rest| == |ranges| && (p.Picked? ==> l.known && p.first <= p.last < |l.start|)
    ensures Chosen([l] + rest, [RangeOf(p)] + ranges, a) <==>
            (p.Picked? && l.start[p.first] <= a <= l.End(p.last)) || Chosen(rest, ranges, a)
  {
    hide InSectors, Chosen;
    ChosenFirst(l, RangeOf(p), rest, ranges, a);
    if p.Picked? {
      RunCovers(l, p.first, p.last, a);
    } else {
      EmptyRange(l, a);
    }
  }

  /** Behind a bank chosen up to the top of the address space nothing more is chosen. */
  lemma TopCovers(ls: seq<Layout>, p: Pick, last: nat)
    requires AllValid(ls) && NoWrap(ls) && ls != [] && ls[0].known && last < WORD_LIMIT
    requires p.Picked? && p.last < |ls[0].start| && ls[0].End(p.last) + 1 == WORD_LIMIT
    requires Choose(ls[1..], 0, last).ok
    ensures var d := Choose(ls[1..], 0, last);
            d.count == 0 && d.next == 0 && Number(d.ranges) == 0 && forall a: nat :: !Chosen(ls[1..], d.ranges, a)
  {
    hide Choose, InSectors, Number;
    var l, rest := ls[0], ls[1..];
    assert l in ls;
    SectorsInside(l, p.last);
    assert ReachesTop(l);
    forall j | 0 <= j < |rest| ensures !AtBottom(rest[j]) {
      assert rest[j] == ls[j + 1];
    }
    NothingAtBottom(rest, last);
    NumberEmpties(|rest|);
    forall a: nat ensures !Chosen(rest, Choose(rest, 0, last).ranges, a) {
      NoneChosen(rest, a);
    }
  }

  lemma EmptyRange(l: Layout, a: nat)
    ensures !InSectors(l, Empty, a)
  {
  }

  lemma NumberFirst(r: Range, ranges: seq<Range>)
    ensures Number([r] + ranges) == Size(r) + Number(ranges)
  {
    assert ([r] + ranges)[1..] == ranges;
  }

  lemma {:induction false} NumberEmpties(n: nat)
    ensures Number(Empties(n)) == 0
  {
    if n > 0 {
      assert Empties(n)[1..] == Empties(n - 1);
      NumberEmpties(n - 1);
    }
  }

  // ---------------------------------------------------------------- why no bank may come behind the top

  predicate InBank(l: Layout, a: nat) {
    l.known && l.start != [] && l.start[0] <= a <= l.BankEnd()
  }

  /** No address belongs to two banks. */
  ghost predicate Disjoint(ls: seq<Layout>) {
    forall i, j, a: nat :: 0 <= i < j < |ls| ==> !(InBank(ls[i], a) && InBank(ls[j], a))
  }

  // ---------------------------------------------------------------- when the whole range is chosen

  /** The banks lie one behind the other, in the order of the table. */
  ghost predicate InOrder(ls: seq<Layout>) {
    forall i, j :: 0 <= i < j < |ls| && ls[i].known && ls[j].known && ls[i].start != [] && ls[j].start != [] ==>
                     ls[i].BankEnd() < ls[j].start[0]
  }

  ghost predicate SectorStarts(ls: seq<Layout>, a: nat) {
    exists l :: l in ls && l.known && StartsAt(l, a, |l.start|) >= 0
  }

  ghost predicate SectorEnds(ls: seq<Layout>, a: nat) {
    exists l :: l in ls && l.known && EndsAt(l, a, |l.start|) >= 0
  }

  ghost predicate Mapped(ls: seq<Layout>, a: nat) {
    exists l :: l in ls && InBank(l, a)
  }

  /** The range begins with a sector, and all of it is flash. */
  ghost predicate Covered(ls: seq<Layout>, first: nat, last: nat) {
    SectorStarts(ls, first) && forall a :: first <= a <= last ==> Mapped(ls, a)
  }

  /** The range begins and ends with a sector, and all of it is flash. */
  ghost predicate Whole(ls: seq<Layout>, first: nat, last: nat) {
    Covered(ls, first, last) && SectorEnds(ls, last)
  }

  lemma StartInBank(l: Layout, a: nat)
    requires l.Valid() && l.known
    ensures StartsAt(l, a, |l.start|) >= 0 ==> InBank(l, a)
    ensures EndsAt(l, a, |l.start|) >= 0 ==> InBank(l, a)
  {
    var s, e := StartsAt(l, a, |l.start|), EndsAt(l, a, |l.start|);
    if s >= 0 {
      SectorsInside(l, s);
    }
    if e >= 0 {
      SectorsInside(l, e);
    }
  }

  lemma OrderRest(ls: seq<Layout>)
    requires ls != [] && AllValid(ls) && InOrder(ls) && ls[0].Valid()
    ensures InOrder(ls[1..]) && AllValid(ls[1..])
    ensures forall l, a: nat :: ls[0].known && l in ls[1..] && InBank(l, a) ==> a > ls[0].BankEnd()
  {
    forall i, j | 0 <= i < j < |ls[1..]| && ls[1..][i].known && ls[1..][j].known && ls[1..][i].start != []
                  && ls[1..][j].start != []
      ensures ls[1..][i].BankEnd() < ls[1..][j].start[0]
    {
      assert ls[1..][i] == ls[i + 1] && ls[1..][j] == ls[j + 1];
    }
    forall l, a: nat | ls[0].known && l in ls[1..] && InBank(l, a) ensures a > ls[0].BankEnd() {
      var k :| 0 <= k < |ls[1..]| && ls[1..][k] == l;
      assert ls[k + 1] == l && ls[0] in ls;
    }
  }

  lemma OrderNoWrap(ls: seq<Layout>)
    requires AllValid(ls) && InOrder(ls)
    ensures NoWrap(ls)
  {
    forall i, j | 0 <= i < j < |ls| ensures !(ReachesTop(ls[i]) && AtBottom(ls[j])) {
      assert ls[i] in ls && ls[j] in ls;
    }
  }

  /** What is true of the first bank or of the rest is true of all of them. */
  lemma WholeFirst(l: Layout, rest: seq<Layout>, a: nat)
    ensures var ls := [l] + rest;
            && (SectorStarts(ls, a) <==> (l.known && StartsAt(l, a, |l.start|) >= 0) || SectorStarts(rest, a))
            && (SectorEnds(ls, a) <==> (l.known && EndsAt(l, a, |l.start|) >= 0) || SectorEnds(rest, a))
            && (Mapped(ls, a) <==> InBank(l, a) || Mapped(rest, a))
  {
    var ls := [l] + rest;
    assert ls[0] == l && l in ls;
    assert forall k :: k in ls <==> k == l || k in rest;
    if k :| k in rest && k.known && StartsAt(k, a, |k.start|) >= 0 {
      assert k in ls;
    }
    if k :| k in rest && k.known && EndsAt(k, a, |k.start|) >= 0 {
      assert k in ls;
    }
    if k :| k in rest && InBank(k, a) {
      assert k in ls;
    }
  }

  /** What lies in the rest lies behind the first bank. */
  lemma RestBehind(ls: seq<Layout>, a: nat)
    requires ls != [] && AllValid(ls) && InOrder(ls) && ls[0].Valid() && ls[0].known
    ensures SectorStarts(ls[1..], a) || SectorEnds(ls[1..], a) || Mapped(ls[1..], a) ==> a > ls[0].BankEnd()
  {
    hide InBank;
    OrderRest(ls);
    if k :| k in ls[1..] && k.known && StartsAt(k, a, |k.start|) >= 0 {
      StartInBank(k, a);
    }
    if k :| k in ls[1..] && k.known && EndsAt(k, a, |k.start|) >= 0 {
      StartInBank(k, a);
    }
  }

  /** In a bank where nothing is picked, nothing of the range begins or ends. */
  lemma NothingWhole(ls: seq<Layout>, first: nat, last: nat)
    requires ls != [] && AllValid(ls) && InOrder(ls) && first <= last && ls[0].Valid()
    requires PickIn(ls[0], first, last).Nothing?
    ensures Covered(ls, first, last) <==> Covered(ls[1..], first, last)
    ensures SectorEnds(ls, last) <==> SectorEnds(ls[1..], last)
  {
    hide InBank, SectorStarts, SectorEnds, Mapped;
    var l, rest := ls[0], ls[1..];
    assert ls == [l] + rest;
    WholeFirst(l, rest, first);
    WholeFirst(l, rest, last);
    forall a: nat ensures Mapped(ls, a) <==> InBank(l, a) || Mapped(rest, a) {
      WholeFirst(l, rest, a);
    }
    if l.known && SectorStarts(rest, first) {
      RestBehind(ls, first);
      forall a: nat | a >= first ensures !InBank(l, a) {
        BankEnds(l, a);
      }
    }
    UnknownBank(l);
  }

  lemma BankEnds(l: Layout, a: nat)
    requires l.Valid() && l.known
    ensures InBank(l, a) <==> l.start[0] <= a <= l.BankEnd()
  {
  }

  lemma UnknownBank(l: Layout)
    ensures !l.known ==> forall a: nat :: !InBank(l, a)
  {
  }

  lemma EndsBehind(l: Layout, first: nat, last: nat)
    requires l.Valid() && l.known
    ensures 0 <= EndsAt(l, last, |l.start|) < StartsAt(l, first, |l.start|) ==> last < first
  {
    var sf, sl := StartsAt(l, first, |l.start|), EndsAt(l, last, |l.start|);
    if 0 <= sl < sf {
      OrderedStarts(l, sl + 1, sf);
    }
  }

  /** Where the search fails, the range does just one of the two: begin with a sector and be flash, or end with a
      sector. */
  lemma WrongWhole(ls: seq<Layout>, first: nat, last: nat)
    requires ls != [] && AllValid(ls) && InOrder(ls) && first <= last && ls[0].Valid()
    requires PickIn(ls[0], first, last).Wrong?
    ensures Covered(ls, first, last) <==> !SectorEnds(ls, last)
  {
    hide SectorStarts, SectorEnds, Mapped;
    var l, rest := ls[0], ls[1..];
    assert ls == [l] + rest;
    WholeFirst(l, rest, first);
    WholeFirst(l, rest, last);
    RestBehind(ls, first);
    RestBehind(ls, last);
    StartInBank(l, first);
    StartInBank(l, last);
    EndsBehind(l, first, last);
    forall a: nat ensures Mapped(ls, a) <==> InBank(l, a) || Mapped(rest, a) {
      WholeFirst(l, rest, a);
    }
  }

  /** A range that goes on behind the first bank is whole exactly if what is left of it is. */
  lemma PickedWhole(ls: seq<Layout>, first: nat, last: nat)
    requires ls != [] && AllValid(ls) && InOrder(ls) && first <= last && ls[0].Valid()
    requires PickIn(ls[0], first, last).Picked?
    ensures var end := ls[0].BankEnd();
            if last <= end then Covered(ls, first, last) && SectorEnds(ls, last)
            else
              && (Covered(ls, first, last) <==> Covered(ls[1..], end + 1, last))
              && (SectorEnds(ls, last) <==> SectorEnds(ls[1..], last))
  {
    hide SectorStarts, SectorEnds, Mapped, InBank;
    var l, rest := ls[0], ls[1..];
    var end := l.BankEnd();
    assert ls == [l] + rest;
    PickFacts(l, first, last);
    StartInBank(l, first);
    WholeFirst(l, rest, first);
    WholeFirst(l, rest, last);
    forall a: nat ensures (Mapped(ls, a) <==> InBank(l, a) || Mapped(rest, a))
                          && (InBank(l, a) <==> l.start[0] <= a <= end) {
      WholeFirst(l, rest, a);
      BankEnds(l, a);
    }
    BankEnds(l, first);
    if last > end {
      StartInBank(l, last);
      NextStarts(ls, end + 1);
    }
  }

  lemma StartFound(l: Layout, s: nat)
    requires s < |l.start|
    ensures StartsAt(l, l.start[s], |l.start|) >= 0
  {
  }

  /** The address behind a bank, if it is flash, is where the next bank starts. */
  lemma NextStarts(ls: seq<Layout>, a: nat)
    requires ls != [] && AllValid(ls) && InOrder(ls) && ls[0].Valid() && ls[0].known && a == ls[0].BankEnd() + 1
    ensures Mapped(ls[1..], a) ==> SectorStarts(ls[1..], a)
  {
    if Mapped(ls[1..], a) {
      var k :| k in ls[1..] && InBank(k, a);
      OrderRest(ls);
      assert k in ls && InBank(k, k.start[0]);
      StartFound(k, 0);
      assert k.start[0] == a;
    }
  }

  lemma NoneWhole(first: nat, last: nat)
    requires first <= last
    ensures !Covered([], first, last) && !SectorEnds([], last) && Choose([], first, last).ok
            && Stop(Choose([], first, last)) == first
  {
    assert !Mapped([], first);
  }

  /** One bank of the search. */
  lemma OneBank(ls: seq<Layout>, first: nat, last: nat)
    requires ls != [] && AllValid(ls) && AllValid(ls[1..]) && ls[0].Valid() && first <= last < WORD_LIMIT
    ensures var c, p := Choose(ls, first, last), PickIn(ls[0], first, last);
            match p
            case Wrong => !c.ok
            case Nothing => var d := Choose(ls[1..], first, last); c.ok == d.ok && Stop(c) == Stop(d)
            case Picked(_, end) =>
              var d := Choose(ls[1..], (ls[0].End(end) + 1) % WORD_LIMIT, last);
              c.ok == d.ok && c.count > 0 && c.next == d.next
  {
    hide PickIn;
    var p := PickIn(ls[0], first, last);
    if p.Picked? {
      PickFacts(ls[0], first, last);
    }
  }

  lemma StopBehind(ls: seq<Layout>, first: nat, last: nat)
    requires AllValid(ls) && NoWrap(ls) && 0 < first <= last < WORD_LIMIT
    ensures var d := Choose(ls, first, last); d.ok && d.count == 0 ==> d.next > 0
  {
    hide Choose, NoWrap;
    if Choose(ls, first, last).ok {
      ChoiceCovers(ls, first, last);
    }
  }

  lemma {:induction false} NoBankLeft(ls: seq<Layout>, first: nat, last: nat)
    requires AllValid(ls) && forall l :: l in ls ==> !l.known
    ensures var c := Choose(ls, first, last); c.ok && c.count == 0 && c.next == first
    decreases |ls|
  {
    if ls != [] {
      assert ls[0] in ls;
      NoBankLeft(ls[1..], first, last);
    }
  }

  /** Where the range ends in the first bank, the search stops behind it. */
  lemma StopHere(ls: seq<Layout>, first: nat, last: nat)
    requires ls != [] && AllValid(ls) && InOrder(ls) && ls[0].Valid() && first <= last < WORD_LIMIT
    requires PickIn(ls[0], first, last).Picked? && last <= ls[0].BankEnd()
    ensures var c := Choose(ls, first, last); c.ok && Stop(c) == last + 1
  {
    hide PickIn, InOrder, InBank;
    var l, rest := ls[0], ls[1..];
    PickFacts(l, first, last);
    OrderRest(ls);
    OneBank(ls, first, last);
    if last + 1 == WORD_LIMIT {
      forall k | k in rest ensures !k.known {
        assert k.Valid();
        if k.known {
          BankEnds(k, k.start[0]);
        }
      }
      NoBankLeft(rest, 0, last);
    }
  }

  /** The search fails exactly if the range does just one of the two: begin with a sector and be flash all through, or
      end with a sector. The whole range is chosen exactly if it does both. */
  lemma {:induction false} WholeExactly(ls: seq<Layout>, first: nat, last: nat)
    requires AllValid(ls) && InOrder(ls) && first <= last < WORD_LIMIT
    ensures Choose(ls, first, last).ok <==> (Covered(ls, first, last) <==> SectorEnds(ls, last))
    ensures Choose(ls, first, last).ok && Stop(Choose(ls, first, last)) == last + 1 <==> Whole(ls, first, last)
    decreases |ls|
  {
    hide Covered, SectorEnds, Beyond, InOrder, PickIn, RangeOf, Size, Choose;
    if ls == [] {
      NoneWhole(first, last);
    } else {
      var l, rest := ls[0], ls[1..];
      assert l in ls;
      OrderRest(ls);
      OrderNoWrap(rest);
      var p := PickIn(l, first, last);
      OneBank(ls, first, last);
      match p {
        case Wrong =>
          WrongWhole(ls, first, last);
        case Nothing =>
          NothingWhole(ls, first, last);
          WholeExactly(rest, first, last);
        case Picked(_, _) =>
          PickedWhole(ls, first, last);
          PickFacts(l, first, last);
          if last > l.BankEnd() {
            WholeExactly(rest, l.BankEnd() + 1, last);
            StopBehind(rest, l.BankEnd() + 1, last);
          } else {
            StopHere(ls, first, last);
          }
      }
    }
  }

  const TOP: nat := WORD_LIMIT - 1

  lemma NoEnd(l: Layout, a: nat)
    requires l.Valid() && l.known && a > l.BankEnd()
    ensures EndsAt(l, a, |l.start|) == -1
  {
    if EndsAt(l, a, |l.start|) >= 0 {
      SectorsInside(l, EndsAt(l, a, |l.start|));
    }
  }

  /** What a bank below the top adds to a range that ends at the top: all from the sector where the search stands, if
      one starts there. */
  lemma PickBelowTop(l: Layout, first: nat)
    requires l.Valid() && !InBank(l, TOP)
    ensures var p := PickIn(l, first, TOP);
            && !p.Wrong?
            && (p.Picked? ==> InBank(l, first))
            && (l.known && first == 0 && AtBottom(l) ==> p.Picked?)
  {
    if l.known {
      NoEnd(l, TOP);
      var s := StartsAt(l, first, |l.start|);
      if s >= 0 {
        SectorsInside(l, s);
      }
    }
  }

  lemma {:induction false} BelowTopSucceeds(ls: seq<Layout>, first: nat)
    requires AllValid(ls) && forall i :: 0 <= i < |ls| ==> !InBank(ls[i], TOP)
    ensures Choose(ls, first, TOP).ok
    decreases |ls|
  {
    hide PickIn;
    if ls != [] && first <= TOP {
      assert ls[0] in ls;
      PickBelowTop(ls[0], first);
      var p := PickIn(ls[0], first, TOP);
      BelowTopSucceeds(ls[1..], if p.Picked? then Beyond(ls[0], p, first) % WORD_LIMIT else first);
    }
  }

  /** A search that has come round to address 0 chooses the bank there. */
  lemma {:induction false} BottomChosen(ls: seq<Layout>, j: nat)
    requires AllValid(ls) && (forall i :: 0 <= i < |ls| ==> !InBank(ls[i], TOP)) && j < |ls| && AtBottom(ls[j])
    ensures Choose(ls, 0, TOP).ok && Chosen(ls, Choose(ls, 0, TOP).ranges, 0)
    decreases |ls|
  {
    hide PickIn, Chosen, InSectors;
    var l, rest := ls[0], ls[1..];
    assert l in ls && [l] + rest == ls;
    PickBelowTop(l, 0);
    BelowTopSucceeds(ls, 0);
    var p := PickIn(l, 0, TOP);
    var d := Choose(rest, if p.Picked? then Beyond(l, p, 0) % WORD_LIMIT else 0, TOP);
    ChosenFirst(l, RangeOf(p), rest, d.ranges, 0);
    if p.Picked? {
      PickFacts(l, 0, TOP);
      SectorOrder(l, p.first, p.last);
      RunCovers(l, p.first, p.last, 0);
    } else {
      BottomChosen(rest, j - 1);
    }
  }

  /** An address chosen in the later banks is chosen. */
  lemma LaterChosen(ls: seq<Layout>, first: nat, last: nat, a: nat)
    requires AllValid(ls) && ls != [] && first <= last
    requires ls[0].Valid() && !PickIn(ls[0], first, last).Wrong?
    requires var p := PickIn(ls[0], first, last);
             var d := Choose(ls[1..], if p.Picked? then Beyond(ls[0], p, first) % WORD_LIMIT else first, last);
             d.ok && Chosen(ls[1..], d.ranges, a)
    ensures Choose(ls, first, last).ok && Chosen(ls, Choose(ls, first, last).ranges, a)
  {
    hide PickIn, Chosen, InSectors, Beyond, Size;
    var l, rest, p := ls[0], ls[1..], PickIn(ls[0], first, last);
    assert [l] + rest == ls;
    var d := Choose(rest, if p.Picked? then Beyond(l, p, first) % WORD_LIMIT else first, last);
    ChosenFirst(l, RangeOf(p), rest, d.ranges, a);
  }

  /** A range from the start of a bank that reaches the top chooses a bank at address 0 behind it. */
  lemma {:induction false} WrapChooses(ls: seq<Layout>, first: nat, i: nat, j: nat)
    requires AllValid(ls) && Disjoint(ls) && i < j < |ls| && ReachesTop(ls[i]) && AtBottom(ls[j])
             && first == ls[i].start[0]
    ensures first <= TOP && Choose(ls, first, TOP).ok && Chosen(ls, Choose(ls, first, TOP).ranges, 0)
    decreases |ls|
  {
    hide PickIn, Chosen, InSectors, Beyond, Choose;
    var l, rest := ls[0], ls[1..];
    assert l in ls && ls[i] in ls && InBank(ls[i], TOP) && InBank(ls[i], first);
    if i == 0 {
      TopPicked(l);
      forall k | 0 <= k < |rest| ensures !InBank(rest[k], TOP) {
        assert rest[k] == ls[k + 1];
      }
      BottomChosen(rest, j - 1);
    } else {
      DisjointRest(ls);
      PickBelowTop(l, first);
      WrapChooses(rest, first, i - 1, j - 1);
    }
    LaterChosen(ls, first, TOP, 0);
  }

  lemma DisjointRest(ls: seq<Layout>)
    requires Disjoint(ls) && ls != []
    ensures Disjoint(ls[1..])
  {
    var rest := ls[1..];
    forall i, j, a: nat | 0 <= i < j < |rest| ensures !(InBank(rest[i], a) && InBank(rest[j], a)) {
      assert rest[i] == ls[i + 1] && rest[j] == ls[j + 1];
    }
  }

  lemma TopPicked(l: Layout)
    requires l.Valid() && ReachesTop(l)
    ensures PickIn(l, l.start[0], TOP).Picked? && Beyond(l, PickIn(l, l.start[0], TOP), l.start[0]) == WORD_LIMIT
  {
    var sf, sl := StartsAt(l, l.start[0], |l.start|), EndsAt(l, TOP, |l.start|);
    SectorsInside(l, |l.start| - 1);
    assert l.End(|l.start| - 1) == TOP;
  }

  /** The condition is exact: on a board whose banks are disjoint no range ever chooses an address outside itself,
      exactly if no bank at address 0 comes behind one that reaches the top. */
  lemma WrapExactly(ls: seq<Layout>)
    requires AllValid(ls) && Disjoint(ls)
    ensures NoWrap(ls) <==>
            forall first: nat, last: nat, a: nat ::
              first <= last < WORD_LIMIT && Choose(ls, first, last).ok
              && Chosen(ls, Choose(ls, first, last).ranges, a) ==>
                first <= a <= last
  {
    hide Choose, Chosen;
    if NoWrap(ls) {
      forall first: nat, last: nat, a: nat
        | first <= last < WORD_LIMIT && Choose(ls, first, last).ok && Chosen(ls, Choose(ls, first, last).ranges, a)
        ensures first <= a <= last
      {
        ChoiceCovers(ls, first, last);
      }
    } else {
      var i, j :| 0 <= i < j < |ls| && ReachesTop(ls[i]) && AtBottom(ls[j]);
      var first := ls[i].start[0];
      WrapChooses(ls, first, i, j);
      assert ls[i] in ls && ls[j] in ls;
      assert InBank(ls[j], 0) && !InBank(ls[i], 0);
    }
  }

  // ---------------------------------------------------------------- the banks of the board

  class Bank {
    const layout: Layout
    const protect: array<nat>

    constructor (layout: Layout)
      requires layout.Valid()
      ensures this.layout == layout && fresh(protect) && protect.Length == |layout.start|
    {
      this.layout := layout;
      protect := new nat[|layout.start|](_ => 0);
    }
  }

  function Layouts(banks: seq<Bank>): (ls: seq<Layout>)
    ensures |ls| == |banks| && forall b :: 0 <= b < |banks| ==> ls[b] == banks[b].layout
  {
    seq(|banks|, b requires 0 <= b < |banks| => banks[b].layout)
  }

  ghost predicate Board(banks: seq<Bank>) {
    && AllValid(Layouts(banks))
    && (forall b :: 0 <= b < |banks| ==> banks[b].protect.Length == |banks[b].layout.start|)
    && forall b, d :: 0 <= b < d < |banks| ==> banks[b].protect != banks[d].protect
  }

  /** What was chosen in a bank, as the two numbers the program keeps. */
  predicate Marks(r: Range, sf: int, sl: int) {
    if r.Empty? then sf == -1 else sf == r.first && sl == r.last
  }

  /** Looks for the sector that starts at the first address and the one that ends at the last. */
  method ScanBank(l: Layout, first: nat, last: nat) returns (sf: int, sl: int)
    requires l.Valid() && l.known && first <= last
    ensures sf == StartsAt(l, first, |l.start|) && sl == EndsAt(l, last, |l.start|)
  {
    sf, sl := -1, -1;
    var sect := 0;
    while sect < |l.start|
      invariant 0 <= sect <= |l.start|
      invariant sf == StartsAt(l, first, sect) && sl == EndsAt(l, last, sect)
    {
      var end := l.End(sect);
      SectorsInside(l, sect);
      if !(first > end) && !(last < l.start[sect]) {
        if first == l.start[sect] {
          sf := sect;
        }
        if last == end {
          sl := sect;
        }
      }
      sect := sect + 1;
    }
  }

  /** What one bank contributes: its first and last sector, or -1, and where the search goes on. */
  method PickBank(l: Layout, first: nat, last: nat) returns (ok: bool, sf: int, sl: int, next: nat, n: nat)
    requires l.Valid() && l.known && first <= last
    ensures match PickIn(l, first, last)
            case Wrong => !ok
            case Nothing => ok && sf == -1 && sl == -1 && next == first && n == 0
            case Picked(f, t) => ok && sf == f && sl == t && next == (l.End(t) + 1) % WORD_LIMIT && n == t - f + 1
  {
    sf, sl := ScanBank(l, first, last);
    ok, next, n := true, first, 0;
    if sf >= 0 {
      if sl < 0 {
        if last > l.BankEnd() {
          sl := |l.start| - 1;
        } else {
          ok := false;
          return;
        }
      }
      if sl < sf {
        ok := false;
        return;
      }
      SectorsInside(l, sl);
      next := if sl == |l.start| - 1 then (l.BankEnd() + 1) % WORD_LIMIT else l.start[sl + 1];
      n := sl - sf + 1;
    } else if sl >= 0 {
      ok := false;
    }
  }

  /** Finds the sectors from `addrFirst` to `addrLast`. */
  method FillSectRanges(banks: seq<Bank>, addrFirst: nat, addrLast: nat, sFirst: array<int>, sLast: array<int>)
    returns (rcode: nat, sCount: nat)
    requires Board(banks) && sFirst.Length == sLast.Length == |banks| && sFirst != sLast
    modifies sFirst, sLast
    ensures var c := Choose(Layouts(banks), addrFirst, addrLast);
            && rcode == (if c.ok then 0 else 1)
            && (c.ok ==> sCount == c.count && forall b :: 0 <= b < |banks| ==> Marks(c.ranges[b], sFirst[b], sLast[b]))
  {
    hide PickIn, Empties, Choose, RestOf;
    ghost var ls := Layouts(banks);
    RestStart(ls, addrFirst, addrLast);
    ghost var c := Choose(ls, addrFirst, addrLast);
    sCount := 0;
    for bank := 0 to |banks|
      invariant forall b :: 0 <= b < bank ==> sFirst[b] == -1 && sLast[b] == -1
    {
      sFirst[bank] := -1;
      sLast[bank] := -1;
    }
    var first: nat, bank := addrFirst, 0;
    rcode := 0;
    while bank < |banks| && first <= addrLast
      invariant 0 <= bank <= |banks| && rcode == 0
      invariant forall b :: bank <= b < |banks| ==> sFirst[b] == -1 && sLast[b] == -1
      invariant RestOf(c, ls, bank, first, addrLast, sCount)
      invariant c.ok ==> forall b :: 0 <= b < bank ==> Marks(c.ranges[b], sFirst[b], sLast[b])
    {
      var l := banks[bank].layout;
      assert ls[bank] == l && l in ls;
      RestStep(c, ls, bank, first, addrLast, sCount);
      if l.known {
        var ok, sf, sl, next, n := PickBank(l, first, addrLast);
        if !ok {
          rcode := 1;
          break;
        }
        sFirst[bank], sLast[bank] := sf, sl;
        first := next;
        sCount := sCount + n;
      } else {
        PickUnknown(l, first, addrLast);
      }
      bank := bank + 1;
    }
    if rcode == 0 {
      RestDone(c, ls, bank, first, addrLast, sCount);
    }
  }

  /** The choice in the banks from `bank` on completes the choice in all. */
  ghost predicate RestOf(c: Choice, ls: seq<Layout>, bank: nat, first: nat, last: nat, count: nat)
    requires AllValid(ls) && bank <= |ls| == |c.ranges|
  {
    var d := Choose(ls[bank..], first, last);
    && c.ok == d.ok
    && (c.ok ==> c.count == count + d.count && c.ranges[bank..] == d.ranges)
  }

  lemma RestStart(ls: seq<Layout>, first: nat, last: nat)
    requires AllValid(ls)
    ensures RestOf(Choose(ls, first, last), ls, 0, first, last, 0)
  {
    var c := Choose(ls, first, last);
    assert ls[0..] == ls && c.ranges[0..] == c.ranges;
  }

  lemma RestStep(c: Choice, ls: seq<Layout>, bank: nat, first: nat, last: nat, count: nat)
    requires AllValid(ls) && bank < |ls| == |c.ranges| && first <= last && RestOf(c, ls, bank, first, last, count)
    ensures ls[bank].Valid()
    ensures match PickIn(ls[bank], first, last)
            case Wrong => !c.ok
            case Nothing => RestOf(c, ls, bank + 1, first, last, count) && (c.ok ==> c.ranges[bank] == Empty)
            case Picked(sf, sl) =>
              && RestOf(c, ls, bank + 1, (ls[bank].End(sl) + 1) % WORD_LIMIT, last, count + Size(Sectors(sf, sl)))
              && sf <= sl && (c.ok ==> c.ranges[bank] == Sectors(sf, sl))
  {
    var l := ls[bank];
    assert l in ls && ls[bank..][0] == l && ls[bank..][1..] == ls[bank + 1..];
    if PickIn(l, first, last).Picked? {
      PickFacts(l, first, last);
      SectorOrder(l, PickIn(l, first, last).first, PickIn(l, first, last).last);
    }
    hide PickIn;
    if c.ok {
      assert c.ranges[bank] == c.ranges[bank..][0] && c.ranges[bank + 1..] == c.ranges[bank..][1..];
    }
  }

  lemma SectorOrder(l: Layout, i: nat, j: nat)
    requires l.Valid() && l.known && i < |l.start| && j < |l.start|
    ensures l.start[i] <= l.start[j] <==> i <= j
  {
  }

  lemma RestDone(c: Choice, ls: seq<Layout>, bank: nat, first: nat, last: nat, count: nat)
    requires AllValid(ls) && bank <= |ls| == |c.ranges| && RestOf(c, ls, bank, first, last, count)
    requires bank == |ls| || first > last
    ensures c.ok && c.count == count && forall b :: bank <= b < |ls| ==> c.ranges[b] == Empty
  {
    assert forall b :: bank <= b < |ls| ==> c.ranges[b] == c.ranges[bank..][b - bank];
  }

  lemma PickUnknown(l: Layout, first: nat, last: nat)
    requires l.Valid() && !l.known
    ensures PickIn(l, first, last) == Nothing
  {
  }

  /** The sectors whose protection changes are those that hold the chosen addresses. */
  lemma InRangeIsChosen(l: Layout, r: Range, s: nat, a: nat)
    requires l.Valid() && l.known && s < |l.start| && InSector(l, s, a) && (r.Sectors? ==> r.last < |l.start|)
    ensures InRange(r, s) <==> InSectors(l, r, a)
  {
    if InSectors(l, r, a) {
      var t :| r.first <= t <= r.last && InSector(l, t, a);
      SectorsApart(l, s, t, a);
    }
  }

  lemma SectorsApart(l: Layout, s: nat, t: nat, a: nat)
    requires l.Valid() && l.known && s < |l.start| && t < |l.start| && InSector(l, s, a) && InSector(l, t, a)
    ensures s == t
  {
    SectorsInside(l, s);
    SectorsInside(l, t);
    if s < t {
      OrderedStarts(l, s + 1, t);
    } else if t < s {
      OrderedStarts(l, t + 1, s);
    }
  }

  /** Sets or clears the protection of the sectors from `addrFirst` to `addrLast`, and of no others. */
  method FlashSectProtect(banks: seq<Bank>, p: nat, addrFirst: nat, addrLast: nat) returns (rcode: nat)
    requires Board(banks)
    modifies set b | 0 <= b < |banks| :: banks[b].protect
    ensures var c := Choose(Layouts(banks), addrFirst, addrLast);
            && rcode == (if c.ok && c.count > 0 then 0 else 1)
            && forall b, s :: 0 <= b < |banks| && 0 <= s < banks[b].protect.Length ==>
                                banks[b].protect[s] ==
                                if rcode == 0 && InRange(c.ranges[b], s) then p else old(banks[b].protect[s])
  {
    ghost var c := Choose(Layouts(banks), addrFirst, addrLast);
    var sFirst, sLast := new int[|banks|], new int[|banks|];
    var planned;
    rcode, planned := FillSectRanges(banks, addrFirst, addrLast, sFirst, sLast);
    if planned > 0 && rcode == 0 {
      var bank := 0;
      while bank < |banks|
        invariant 0 <= bank <= |banks|
        invariant forall b :: 0 <= b < |banks| ==> Marks(c.ranges[b], sFirst[b], sLast[b])
        invariant forall b, s :: 0 <= b < |banks| && 0 <= s < banks[b].protect.Length ==>
                                   banks[b].protect[s] ==
                                   if b < bank && InRange(c.ranges[b], s) then p else old(banks[b].protect[s])
      {
        if c.ranges[bank].Sectors? {
          RangesInside(Layouts(banks), addrFirst, addrLast, bank);
        }
        if banks[bank].layout.known {
          if sFirst[bank] >= 0 && sFirst[bank] <= sLast[bank] {
            SetProtect(banks[bank], p, sFirst[bank], sLast[bank]);
          }
        }
        bank := bank + 1;
      }
    } else if rcode == 0 {
      rcode := 1;
    }
  }

  /** The sectors chosen exist. */
  lemma {:induction false} RangesInside(ls: seq<Layout>, first: nat, last: nat, b: nat)
    requires AllValid(ls) && b < |ls| && Choose(ls, first, last).ranges[b].Sectors?
    ensures var r := Choose(ls, first, last).ranges[b]; ls[b].known && r.first <= r.last < |ls[b].start|
  {
    hide PickIn;
    var l := ls[0];
    assert l in ls;
    var p := PickIn(l, first, last);
    if p.Picked? {
      PickFacts(l, first, last);
      SectorOrder(l, p.first, p.last);
    }
    if b > 0 {
      RangesInside(ls[1..], if p.Picked? then (l.End(p.last) + 1) % WORD_LIMIT else first, last, b - 1);
    }
  }

  predicate InRange(r: Range, s: nat) {
    r.Sectors? && r.first <= s <= r.last
  }

  method SetProtect(bank: Bank, p: nat, first: nat, last: nat)
    requires first <= last < bank.protect.Length
    modifies bank.protect
    ensures forall s :: 0 <= s < bank.protect.Length ==>
                          bank.protect[s] == if first <= s <= last then p else old(bank.protect[s])
  {
    for i := first to last + 1
      invariant forall s :: 0 <= s < bank.protect.Length ==>
                              bank.protect[s] == if first <= s < i then p else old(bank.protect[s])
    {
      bank.protect[i] := p;
    }
  }
}
