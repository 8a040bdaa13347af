/** Facts about products, quotients, remainders and slices used by several modules. */
module Arith {

  function Div(n: nat, d: nat): (q: nat)
    requires d > 0
  {
    n / d
  }

  function Mod(n: nat, d: nat): (r: nat)
    requires d > 0
    ensures r < d
  {
    n % d
  }

  lemma MulStep(a: nat, b: nat, d: nat)
    requires a < b
    ensures a * d + d <= b * d
  {
    assert (a + 1) * d <= b * d;
  }

  lemma NextMultiple(a: nat, d: nat)
    ensures (a + 1) * d == a * d + d
  {
  }

  lemma MulMono(a: nat, b: nat, d: nat)
    requires a <= b
    ensures a * d <= b * d
  {
  }

  lemma DivModUnique(q: nat, r: nat, d: nat)
    requires r < d
    ensures (q * d + r) / d == q && (q * d + r) % d == r
  {
    var n := q * d + r;
    if n / d < q {
      MulStep(n / d, q, d);
      assert false;
    } else if q < n / d {
      MulStep(q, n / d, d);
      assert false;
    }
  }

  lemma SameQuotient(start: nat, k: nat, n: nat)
    requires n > 0 && start % n + k < n
    ensures (start + k) / n == start / n
  {
    DivModUnique(start / n, start % n + k, n);
  }

  /** Two positions less than a ring's length apart fall into different slots. */
  lemma SlotsDiffer(i: nat, j: nat, n: nat)
    requires i < j < i + n
    ensures i % n != j % n
  {
    var a, b := i / n, j / n;
    assert i == a * n + i % n && j == b * n + j % n;
    if i % n == j % n {
      if a < b {
        MulStep(a, b, n);
      }
      assert false;
    }
  }

  /** Positions that do not leave the current lap keep their distance. */
  lemma SameLap(start: nat, k: nat, n: nat)
    requires n > 0 && start % n + k < n
    ensures (start + k) % n == start % n + k
  {
    DivModUnique(start / n, start % n + k, n);
  }

  /** Rounding down to a multiple. */
  lemma DivFloor(n: nat, d: nat)
    requires d > 0
    ensures n / d * d <= n < n / d * d + d
    ensures d <= n ==> n / d > 0
    ensures n < d ==> n / d == 0
  {
    if d <= n && n / d == 0 {
      assert false;
    }
  }

  lemma SliceOfSlice<T>(s: seq<T>, a: nat, b: nat, c: nat, d: nat)
    requires a <= b <= |s| && c <= d <= b - a
    ensures s[a..b][c..d] == s[a + c..a + d]
  {
    forall i | 0 <= i < d - c
      ensures s[a..b][c..d][i] == s[a + c..a + d][i]
    {
      assert s[a..b][c + i] == s[a + (c + i)];
    }
  }

  /** The length of n blocks. Where blocks are only counted, this keeps
      products of two unknowns out of the proofs. */
  function Blocks(n: nat, size: nat): nat {
    if n == 0 then 0 else Blocks(n - 1, size) + size
  }

  lemma {:induction false} BlocksTimes(n: nat, size: nat)
    ensures Blocks(n, size) == n * size
  {
    if n > 0 {
      BlocksTimes(n - 1, size);
      NextMultiple(n - 1, size);
    }
  }

  lemma {:induction false} BlocksAdd(a: nat, b: nat, size: nat)
    ensures Blocks(a + b, size) == Blocks(a, size) + Blocks(b, size)
  {
    if b > 0 {
      BlocksAdd(a, b - 1, size);
    }
  }

  lemma BlocksMono(a: nat, b: nat, size: nat)
    requires a <= b
    ensures Blocks(a, size) <= Blocks(b, size)
    ensures a < b ==> Blocks(a, size) + size <= Blocks(b, size)
  {
    if a < b {
      BlocksAdd(a + 1, b - a - 1, size);
    }
  }

  lemma SameBlocks(count: nat, rest: nat, n: nat, size: nat)
    requires rest < size && Blocks(count, size) + rest == Blocks(n, size)
    ensures count == n && rest == 0
  {
    if count < n { BlocksMono(count, n, size); }
    if n < count { BlocksMono(n, count, size); }
  }

  lemma WholeRoundUp(n: nat, total: nat, size: nat)
    requires Blocks(total, size) <= Blocks(n, size) < Blocks(total, size) + size
    ensures n == total
  {
    if n < total { BlocksMono(n, total, size); }
    if total < n { BlocksMono(total, n, size); }
  }

  /** Whole blocks in n bytes, and what is left over. */
  method Split(n: nat, size: nat) returns (blocks: nat, rest: nat)
    requires size > 0
    ensures blocks == n / size && rest == n % size
    ensures Blocks(blocks, size) + rest == n && rest < size
  {
    blocks, rest := n / size, n % size;
    BlocksTimes(blocks, size);
  }

  /** Blocks needed to hold n bytes. */
  method RoundUp(n: nat, size: nat) returns (blocks: nat)
    requires size > 0
    ensures blocks == (n + size - 1) / size
    ensures n <= Blocks(blocks, size) < n + size
  {
    var rest;
    blocks, rest := Split(n + size - 1, size);
  }
}
