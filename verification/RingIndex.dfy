/** Arithmetic of positions in a ring of `n` cells: the i-th byte ever written lies in cell i % n. */
module RingIndex {
  import opened Arithmetic

  /** As long as the cells do not wrap, consecutive bytes lie in consecutive cells. */
  lemma SameRow(i: nat, j: nat, n: nat)
    requires n > 0 && i % n + j < n
    ensures (i + j) % n == i % n + j
  {
    DivisionIsUnique(i + j, i / n, i % n + j, n);
  }

  lemma NextCell(i: nat, n: nat)
    requires n > 0
    ensures (i + 1) % n == if i % n + 1 == n then 0 else i % n + 1
  {
    if i % n + 1 == n {
      assert i + 1 == (i / n + 1) * n by {
        assert i == (i / n) * n + i % n;
        assert (i / n + 1) * n == (i / n) * n + n;
      }
      DivisionIsUnique(i + 1, i / n + 1, 0, n);
    } else {
      SameRow(i, 1, n);
    }
  }

  /** Bytes fewer than n apart never share a cell. */
  lemma {:induction false} DistinctCells(i: nat, j: nat, n: nat)
    requires n > 0 && i < j < i + n
    ensures i % n != j % n
  {
    var k := j / n - i / n;
    assert j - i == k * n + (j % n - i % n) by {
      assert i == (i / n) * n + i % n && j == (j / n) * n + j % n;
      assert k * n == (j / n) * n - (i / n) * n;
    }
    assert k >= 1 ==> k * n >= n;
    assert k <= 0 ==> k * n <= 0;
  }

  /** A full lap leads back to the same cell. */
  lemma OneLap(i: nat, n: nat)
    requires 0 < n <= i
    ensures (i - n) % n == i % n
  {
    assert i == (i / n) * n + i % n;
    assert (i / n - 1) * n == (i / n) * n - n;
    DivisionIsUnique(i - n, i / n - 1, i % n, n);
  }

  /** Advancing by a block that ends at most at the end of the buffer. */
  lemma Advance(i: nat, j: nat, n: nat)
    requires n > 0 && i % n + j <= n
    ensures (i + j) % n == if i % n + j == n then 0 else i % n + j
  {
    if i % n + j == n {
      assert i == (i / n) * n + i % n;
      assert (i / n + 1) * n == (i / n) * n + n;
      DivisionIsUnique(i + j, i / n + 1, 0, n);
    } else {
      SameRow(i, j, n);
    }
  }
}
