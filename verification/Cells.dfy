// Cells of circular buffers.

module Cells {
  import Naturals = Bits

  /** k % n, in the form of a repeated subtraction. */
  function Cell(k: nat, n: nat): (c: nat)
    requires n >= 1
    ensures c < n
  {
    if k < n then k else Cell(k - n, n)
  }

  lemma {:induction false} CellIsMod(k: nat, n: nat)
    requires n >= 1
    ensures Cell(k, n) == k % n
    decreases k
  {
    if k < n {
      Naturals.DivModUnique(k, n, 0, k);
    } else {
      CellIsMod(k - n, n);
      Naturals.DivModUnique(k, n, (k - n) / n + 1, (k - n) % n);
    }
  }

  /** Numbers less than one turn apart never share a cell. */
  lemma {:induction false} CellsDiffer(a: nat, b: nat, n: nat)
    requires n >= 1 && a < b < a + n
    ensures Cell(a, n) != Cell(b, n)
    decreases a
  {
    if a >= n {
      CellsDiffer(a - n, b - n, n);
    } else if b >= n {
      assert Cell(b, n) == Cell(b - n, n) == b - n;
    }
  }

  /** Every cell has a number among the last n. */
  lemma {:induction false} CellSurjective(i: nat, total: nat, n: nat) returns (k: nat)
    requires i < n <= total
    ensures total - n <= k < total && Cell(k, n) == i
    decreases total
  {
    if total == n {
      k := i;
    } else if i == Cell(total - 1, n) {
      k := total - 1;
    } else {
      k := CellSurjective(i, total - 1, n);
      if k < total - n {
        assert k + n == total - 1;
        assert Cell(k + n, n) == Cell(k, n);
        assert false;
      }
    }
  }
}
