/** Integer facts the mesh layout rests on: uniqueness of Euclidean division
    and stepping forwards and backwards around a cycle of n indices. */
module ModularArith {

  /** Multiplying by a non-negative factor keeps the order. */
  lemma MulLeft(a: int, b: int, c: int)
    ensures 0 <= c && a <= b ==> a * c <= b * c
  {
  }

  /** Division by d > 0 has exactly one quotient/remainder pair. */
  lemma DivModUnique(x: int, d: int, q: int, r: int)
    requires 0 < d && 0 <= r < d && x == q * d + r
    ensures x / d == q && x % d == r
  {
    var q0 := x / d;
    assert q0 * d <= x < q0 * d + d;
    MulLeft(q0 + 1, q, d);
    MulLeft(q + 1, q0, d);
  }

  lemma SuccessorMod(x: nat, n: nat)
    requires x < n
    ensures (x + 1) % n == if x + 1 == n then 0 else x + 1
  {
    if x + 1 == n {
      DivModUnique(x + 1, n, 1, 0);
    } else {
      DivModUnique(x + 1, n, 0, x + 1);
    }
  }

  /** The index after x when the indices 0 .. n-1 close into a cycle: `(x + 1) % n`. */
  function CyclicNext(x: nat, n: nat): (y: nat)
    requires x < n
    ensures y < n
    ensures y == if x + 1 == n then 0 else x + 1
  {
    SuccessorMod(x, n);
    (x + 1) % n
  }

  /** The index before x in the same cycle; CyclicNext undoes it. */
  function CyclicPrev(x: nat, n: nat): (y: nat)
    requires x < n
    ensures y < n && CyclicNext(y, n) == x
  {
    if x == 0 then n - 1 else x - 1
  }

  lemma CyclicNextInjective(x: nat, y: nat, n: nat)
    requires x < n && y < n && CyclicNext(x, n) == CyclicNext(y, n)
    ensures x == y
  {
  }

  /** In a cycle of at least two indices no index is its own successor. */
  lemma CyclicNextMoves(x: nat, n: nat)
    requires 2 <= n && x < n
    ensures CyclicNext(x, n) != x
  {
  }
}
