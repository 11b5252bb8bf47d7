/** The circular buffer, which keeps the latest bytes (u-boot-v1.2/common/circbuf.c). */
module CircularBuffer {
  import opened Basics

  // ---------------------------------------------------------------- the queue it stands for

  /** The last `n` elements, or all if there are fewer. */
  function Last<T>(s: seq<T>, n: nat): (r: seq<T>)
    ensures |r| == if |s| < n then |s| else n
    ensures forall i :: 0 <= i < |r| ==> r[i] == s[|s| - |r| + i]
  {
    if |s| <= n then s else s[|s| - n..]
  }

  lemma LastAll<T>(s: seq<T>, n: nat)
    requires |s| <= n
    ensures Last(s, n) == s
  {
  }

  /** In how many pieces bytes are pushed makes no difference. */
  lemma LastJoin<T>(a: seq<T>, b: seq<T>, n: nat)
    ensures Last(Last(a, n) + b, n) == Last(a + b, n)
  {
  }

  datatype Op = Push(bytes: seq<Byte>) | Pop(len: nat)

  function Taken(queue: seq<Byte>, op: Op): seq<Byte> {
    match op
    case Push(_) => []
    case Pop(len) => queue[..if len > |queue| then |queue| else len]
  }

  function Given(op: Op): seq<Byte> {
    if op.Push? then op.bytes else []
  }

  function Left(queue: seq<Byte>, op: Op, total: nat): seq<Byte> {
    match op
    case Push(bytes) => Last(queue + bytes, total)
    case Pop(len) => queue[|Taken(queue, op)|..]
  }

  function LeftAll(queue: seq<Byte>, ops: seq<Op>, total: nat): seq<Byte>
    decreases |ops|
  {
    if ops == [] then queue else LeftAll(Left(queue, ops[0], total), ops[1..], total)
  }

  function TakenAll(queue: seq<Byte>, ops: seq<Op>, total: nat): seq<Byte>
    decreases |ops|
  {
    if ops == [] then [] else Taken(queue, ops[0]) + TakenAll(Left(queue, ops[0], total), ops[1..], total)
  }

  function GivenAll(ops: seq<Op>): seq<Byte> {
    if ops == [] then [] else Given(ops[0]) + GivenAll(ops[1..])
  }

  /** Every push finds room for all its bytes. */
  predicate Roomy(queue: seq<Byte>, ops: seq<Op>, total: nat)
    decreases |ops|
  {
    ops != [] ==>
      && |queue| + |Given(ops[0])| <= total
      && Roomy(Left(queue, ops[0], total), ops[1..], total)
  }

  /** Over every run, first in is first out and nothing is lost, exactly if every push finds room. */
  lemma {:induction false} FirstInFirstOut(queue: seq<Byte>, ops: seq<Op>, total: nat)
    requires |queue| <= total
    decreases |ops|
    ensures |TakenAll(queue, ops, total) + LeftAll(queue, ops, total)| <= |queue + GivenAll(ops)|
    ensures TakenAll(queue, ops, total) + LeftAll(queue, ops, total) == queue + GivenAll(ops) <==>
            Roomy(queue, ops, total)
  {
    if ops == [] {
      assert queue + GivenAll(ops) == queue;
    } else {
      hide Taken, Left, Given;
      var op, rest := ops[0], ops[1..];
      var taken, next, given := Taken(queue, op), Left(queue, op, total), Given(op);
      OneStep(queue, op, total);
      FirstInFirstOut(next, rest, total);
      var after, more := TakenAll(next, rest, total) + LeftAll(next, rest, total), GivenAll(rest);
      Regrouped(taken, TakenAll(next, rest, total), LeftAll(next, rest, total));
      assert TakenAll(queue, ops, total) + LeftAll(queue, ops, total) == taken + after;
      assert GivenAll(ops) == given + more;
      if |queue| + |given| <= total {
        OneMore(taken, after, next, queue, given, more);
      }
    }
  }

  lemma Regrouped<T>(a: seq<T>, b: seq<T>, c: seq<T>)
    ensures a + b + c == a + (b + c)
  {
  }

  lemma OneStep(queue: seq<Byte>, op: Op, total: nat)
    requires |queue| <= total
    ensures |Left(queue, op, total)| <= total
    ensures |Taken(queue, op)| + |Left(queue, op, total)| <= |queue| + |Given(op)|
    ensures |queue| + |Given(op)| <= total ==> Taken(queue, op) + Left(queue, op, total) == queue + Given(op)
    ensures |queue| + |Given(op)| > total ==> |Taken(queue, op)| + |Left(queue, op, total)| < |queue| + |Given(op)|
  {
  }

  lemma {:induction false} PushesLeave(queue: seq<Byte>, ops: seq<Op>, total: nat)
    requires |queue| <= total && forall op :: op in ops ==> op.Push?
    ensures LeftAll(queue, ops, total) == Last(queue + GivenAll(ops), total)
    decreases |ops|
  {
    hide Last;
    if ops == [] {
      assert queue + GivenAll(ops) == queue;
      LastAll(queue, total);
    } else {
      assert ops[0] in ops;
      var bytes, rest := ops[0].bytes, GivenAll(ops[1..]);
      LastIs(queue + bytes, total);
      PushesLeave(Last(queue + bytes, total), ops[1..], total);
      LastJoin(queue + bytes, rest, total);
      Regrouped(queue, bytes, rest);
    }
  }

  /** Over every run of pushes, however much they overflow, what is left are the latest bytes in order. */
  lemma PushesKeepLatest(queue: seq<Byte>, ops: seq<Op>, total: nat)
    requires |queue| <= total && forall op :: op in ops ==> op.Push?
    ensures var all, left := queue + GivenAll(ops), LeftAll(queue, ops, total);
            |left| == Min(|all|, total) && left == all[|all| - |left|..]
  {
    hide Last, LeftAll;
    PushesLeave(queue, ops, total);
    LastIs(queue + GivenAll(ops), total);
  }

  lemma LastIs<T>(s: seq<T>, n: nat)
    ensures |Last(s, n)| == Min(|s|, n) && Last(s, n) == s[|s| - |Last(s, n)|..]
  {
  }

  lemma OneMore<T>(taken: seq<T>, after: seq<T>, next: seq<T>, queue: seq<T>, given: seq<T>, more: seq<T>)
    requires taken + next == queue + given
    ensures taken + after == queue + (given + more) <==> after == next + more
  {
    assert queue + (given + more) == (queue + given) + more == (taken + next) + more == taken + (next + more);
    if taken + after == taken + (next + more) {
      assert after == (taken + after)[|taken|..] && next + more == (taken + (next + more))[|taken|..];
    }
  }

  // ---------------------------------------------------------------- the ring

  /** The place `i` steps behind `top` in a ring of `n`. */
  function Slot(top: nat, i: nat, n: nat): (s: nat)
    requires top < n && i <= n
    ensures s < n && s == (top + i) % n
  {
    SlotIs(top, i, n);
    if top + i < n then top + i else top + i - n
  }

  function Next(p: nat, n: nat): nat {
    if p + 1 == n then 0 else p + 1
  }

  lemma SlotIs(top: nat, i: nat, n: nat)
    requires top < n && i <= n
    ensures (top + i) % n == if top + i < n then top + i else top + i - n
  {
    if top + i < n {
      DivIs(top + i, n, 0, top + i);
    } else {
      DivIs(top + i, n, 1, top + i - n);
    }
  }

  function Unrolled(data: seq<Byte>, top: nat, size: nat): (s: seq<Byte>)
    requires (data != [] ==> top < |data|) && size <= |data|
    ensures |s| == size
    ensures forall i :: 0 <= i < size ==> s[i] == data[Slot(top, i, |data|)]
  {
    seq(size, i requires 0 <= i < size => data[Slot(top, i, |data|)])
  }

  lemma UnrollMore(data: seq<Byte>, top: nat, size: nat, c: Byte)
    requires top < |data| && size < |data|
    ensures Slot(top, size + 1, |data|) == Next(Slot(top, size, |data|), |data|)
    ensures Unrolled(data[Slot(top, size, |data|) := c], top, size + 1) == Unrolled(data, top, size) + [c]
  {
  }

  lemma UnrollOver(data: seq<Byte>, top: nat, c: Byte)
    requires top < |data|
    ensures Slot(top, |data|, |data|) == top && Slot(Slot(top, 1, |data|), |data|, |data|) == Slot(top, 1, |data|)
    ensures Slot(top, 1, |data|) == Next(top, |data|)
    ensures Unrolled(data[top := c], Slot(top, 1, |data|), |data|) == Unrolled(data, top, |data|)[1..] + [c]
  {
  }

  lemma UnrollAt(data: seq<Byte>, top: nat, size: nat, i: nat)
    requires top < |data| && i < size <= |data|
    ensures Unrolled(data, top, size)[i] == data[Slot(top, i, |data|)]
    ensures Slot(top, i + 1, |data|) == Next(Slot(top, i, |data|), |data|)
  {
  }

  lemma UnrollLess(data: seq<Byte>, top: nat, size: nat, k: nat)
    requires top < |data| && k <= size <= |data|
    ensures Slot(top, 0, |data|) == top && Slot(Slot(top, k, |data|), size - k, |data|) == Slot(top, size, |data|)
    ensures Unrolled(data, Slot(top, k, |data|), size - k) == Unrolled(data, top, size)[k..]
  {
  }

  class Ring {
    const data: array<Byte>
    var top: nat
    var tail: nat
    var size: nat

    ghost predicate Valid()
      reads this
    {
      && size <= data.Length
      && if data.Length == 0 then top == 0 && tail == 0 else top < data.Length && tail == Slot(top, size, data.Length)
    }

    ghost function Contents(): (s: seq<Byte>)
      reads this, data
      requires Valid()
      ensures |s| == size
    {
      Unrolled(data[..], top, size)
    }

    constructor BufInit(total: nat)
      ensures Valid() && fresh(data) && data.Length == total && Contents() == []
    {
      data := new Byte[total];
      top, tail, size := 0, 0, 0;
    }

    method BufPop(dest: array<Byte>, len: nat) returns (n: nat)
      requires Valid() && dest != data && (len <= dest.Length || size <= dest.Length)
      modifies this, dest
      ensures Valid() && data[..] == old(data[..])
      ensures n == |Taken(old(Contents()), Pop(len))| <= dest.Length && n == Min(len, old(size))
      ensures dest[..n] == old(Contents()[..Min(len, size)]) && Contents() == old(Contents()[Min(len, size)..])
      ensures dest[..n] == Taken(old(Contents()), Pop(len)) && dest[n..] == old(dest[n..])
      ensures Contents() == Left(old(Contents()), Pop(len), data.Length)
    {
      hide Unrolled, Slot;
      n := if len > size then size else len;
      var p := top;
      ghost var was := Contents();
      if data.Length > 0 {
        UnrollLess(data[..], top, size, n);
      }
      for i := 0 to n
        invariant Valid() && top == old(top) && size == old(size) && data[..] == old(data[..])
        invariant if data.Length == 0 then p == 0 else p == Slot(top, i, data.Length)
        invariant dest[..i] == was[..i] && dest[n..] == old(dest[n..])
      {
        UnrollAt(data[..], top, size, i);
        dest[i] := data[p];
        assert was[i] == data[p] && dest[..i + 1] == was[..i] + [was[i]];
        p := p + 1;
        if p == data.Length {
          p := 0;
        }
      }
      top := p;
      size := size - n;
    }

    /** A buffer without capacity cannot take anything. */
    method BufPush(src: seq<Byte>) returns (n: nat)
      requires Valid() && (data.Length > 0 || src == [])
      modifies this, data
      ensures Valid() && n == |src|
      ensures Contents() == Left(old(Contents()), Push(src), data.Length)
    {
      hide Unrolled, Last, Slot;
      ghost var was := Contents();
      LastAll(was, data.Length);
      assert was + [] == was;
      for i := 0 to |src|
        invariant Valid() && Contents() == Last(was + src[..i], data.Length)
      {
        assert was + src[..i] + [src[i]] == was + src[..i + 1];
        LastJoin(was + src[..i], [src[i]], data.Length);
        PushOne(src[i]);
      }
      assert src[..|src|] == src;
      n := |src|;
    }

    method PushOne(c: Byte)
      requires Valid() && data.Length > 0
      modifies this, data
      ensures Valid() && Contents() == Last(old(Contents()) + [c], data.Length)
    {
      hide Unrolled, Slot;
      ghost var was, start := data[..], top;
      if size < data.Length {
        UnrollMore(was, top, size, c);
      } else {
        UnrollOver(was, top, c);
      }
      data[tail] := c;
      assert data[..] == was[Slot(start, size, data.Length) := c];
      tail := tail + 1;
      if tail == data.Length {
        tail := 0;
      }
      if size < data.Length {
        size := size + 1;
      } else {
        top := top + 1;
        if top == data.Length {
          top := 0;
        }
      }
    }
  }
}
