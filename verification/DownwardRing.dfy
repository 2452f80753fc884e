/** Rings that are used downwards: the i-th oldest of the elements lies i cells below the tail, and the
    head is the cell below the youngest (include/qequeue.h, include/qs.h). */
module DownwardRing {

  function CellAt(tail: nat, i: nat, size: nat): nat
    requires tail < size && i <= size
  {
    if i <= tail then tail - i else tail + size - i
  }

  /** The `n` elements of the ring, oldest first. */
  function Ring<T>(cells: seq<T>, tail: nat, n: nat, size: nat): (s: seq<T>)
    requires n <= size <= |cells| && (n > 0 ==> tail < size)
    ensures |s| == n
  {
    seq(n, i requires 0 <= i < n => cells[CellAt(tail, i, size)])
  }

  lemma InsertAtHead<T>(cells: seq<T>, tail: nat, n: nat, size: nat, x: T)
    requires n < size <= |cells| && tail < size
    ensures Ring(cells[CellAt(tail, n, size) := x], tail, n + 1, size) == Ring(cells, tail, n, size) + [x]
  {}

  lemma InsertAtTail<T>(cells: seq<T>, tail: nat, n: nat, size: nat, x: T)
    requires n < size <= |cells| && tail < size
    ensures var up := if tail + 1 == size then 0 else tail + 1;
            && Ring(cells[up := x], up, n + 1, size) == [x] + Ring(cells, tail, n, size)
            && CellAt(up, n + 1, size) == CellAt(tail, n, size)
  {
    var up := if tail + 1 == size then 0 else tail + 1;
    forall i: nat | i <= n ensures CellAt(up, i + 1, size) == CellAt(tail, i, size) {}
  }

  lemma RemoveAtTail<T>(cells: seq<T>, tail: nat, n: nat, size: nat)
    requires 0 < n <= size <= |cells| && tail < size
    ensures var down := if tail == 0 then size - 1 else tail - 1;
            && Ring(cells, tail, n, size) == [cells[tail]] + Ring(cells, down, n - 1, size)
            && CellAt(down, n - 1, size) == CellAt(tail, n, size)
  {
    var down := if tail == 0 then size - 1 else tail - 1;
    forall i: nat | 0 < i <= n ensures CellAt(down, i - 1, size) == CellAt(tail, i, size) {}
  }
}
