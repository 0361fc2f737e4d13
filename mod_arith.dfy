/**
 * Remainders for following the buffer cursor. `Mod` is the remainder by
 * repeated subtraction; ModIsRem shows it is Dafny's `%` (which agrees with
 * C's `%` on the non-negative operands used here). The specifications use
 * `Mod`, which unfolds one step at a time, to keep non-linear arithmetic out
 * of the buffer proofs.
 */
module ModArith {

  function Mod(n: nat, m: int): (r: nat)
    requires 0 < m
    ensures r < m
    decreases n
  {
    if n < m then n else Mod(n - m, m)
  }

  /** Mod is the Euclidean remainder. */
  lemma {:induction false} ModIsRem(n: nat, m: int)
    requires 0 < m
    ensures Mod(n, m) == n % m
    decreases n
  {
    if n < m {
      ModBelow(n, m);
    } else {
      ModIsRem(n - m, m);
      var q := (n - m) / m;
      assert n - m == q * m + (n - m) % m;
      assert n == (q + 1) * m + (n - m) % m;
      ModUnique(n, m, q + 1, (n - m) % m);
    }
  }

  /** The successor of a counter, taken modulo m, depends only on its residue. */
  lemma {:induction false} ModSucc(n: nat, m: int)
    requires 0 < m
    ensures Mod(Mod(n, m) + 1, m) == Mod(n + 1, m)
    decreases n
  {
    if n >= m {
      ModSucc(n - m, m);
    }
  }

  /** x % m for x in [m, 2m). */
  lemma ModOneWrap(x: int, m: int)
    requires 0 < m <= x < 2 * m
    ensures x % m == x - m
  {
    assert x == 1 * m + (x - m);
  }

  lemma ModBelow(x: int, m: int)
    requires 0 <= x < m
    ensures x % m == x
  {
    assert x == 0 * m + x;
  }

  /** Euclidean division is unique: a representation q*m + r with 0 <= r < m fixes the remainder. */
  lemma ModUnique(x: int, m: int, q: int, r: int)
    requires 0 < m && 0 <= r < m && x == q * m + r
    ensures x % m == r
  {
    var q', r' := x / m, x % m;
    assert x == q' * m + r';
    assert (q - q') * m == r' - r;
    if q < q' {
      MulAtLeast(q' - q, m);
    } else if q > q' {
      MulAtLeast(q - q', m);
    }
  }

  lemma {:induction false} MulAtLeast(d: int, m: int)
    requires 1 <= d && 0 < m
    ensures d * m >= m
    decreases d
  {
    if d > 1 {
      MulAtLeast(d - 1, m);
      assert d * m == (d - 1) * m + m;
    }
  }
}
