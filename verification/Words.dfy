/** Words of 32 bits and the numbers they stand for. */
module Words {
  const WIDTH: nat := 32

  type Word = s: seq<bool> | |s| == WIDTH witness seq(WIDTH, _ => false)

  function Pow2(n: nat): (p: nat)
    ensures p > 0
  {
    if n == 0 then 1 else 2 * Pow2(n - 1)
  }

  /** The bits of a number, the lowest one first. */
  function Bits(x: nat, n: nat): (s: seq<bool>)
    ensures |s| == n
  {
    if n == 0 then [] else [x % 2 == 1] + Bits(x / 2, n - 1)
  }

  function Not(w: Word): (r: Word)
    ensures forall i :: 0 <= i < WIDTH ==> r[i] == !w[i]
  {
    seq(WIDTH, i requires 0 <= i < WIDTH => !w[i])
  }

  lemma {:induction false} BitsDiffer(x: nat, y: nat, n: nat)
    requires x < Pow2(n) && y < Pow2(n) && Bits(x, n) == Bits(y, n)
    ensures x == y
  {
    if n > 0 {
      assert Bits(x, n)[0] == Bits(y, n)[0];
      assert Bits(x, n)[1..] == Bits(x / 2, n - 1) && Bits(y, n)[1..] == Bits(y / 2, n - 1);
      BitsDiffer(x / 2, y / 2, n - 1);
    }
  }

  lemma ModAtMost(x: nat, n: nat)
    requires 0 < x <= n
    ensures x % n == if x < n then x else 0
  {
  }

  lemma {:induction false} Pow2Grows(i: nat, j: nat)
    requires i < j
    ensures Pow2(i) < Pow2(j)
  {
    if i < j - 1 {
      Pow2Grows(i, j - 1);
    }
  }
}
