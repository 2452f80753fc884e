/** Pools of memory blocks of one size, whose free blocks are linked through their own first words
    (include/qmpool.h and src/qf/qf_mem.cpp). */
module MemPool {
  import opened Arithmetic
  import opened Collections

  const NULL := -1

  /** The list `free` of block addresses is what one sees by following the links from `first`. */
  ghost predicate IsChain(links: seq<int>, first: int, free: seq<nat>) {
    && first == Entry(free, 0)
    && forall i: nat | i < |free| :: LinkedAt(links, free, i)
  }

  ghost function Entry(free: seq<nat>, i: nat): int {
    if i < |free| then free[i] else NULL
  }

  ghost predicate LinkedAt(links: seq<int>, free: seq<nat>, i: nat)
    requires i < |free|
  {
    free[i] < |links| && links[free[i]] == Entry(free, i + 1)
  }

  lemma PopChain(links: seq<int>, first: int, free: seq<nat>)
    requires IsChain(links, first, free) && free != []
    ensures first == free[0] < |links| && links[first] == Entry(free, 1)
    ensures IsChain(links, links[first], free[1..])
  {
    assert LinkedAt(links, free, 0);
    forall i: nat | i < |free[1..]| ensures LinkedAt(links, free[1..], i) {
      assert LinkedAt(links, free, i + 1);
    }
  }

  lemma PushChain(links: seq<int>, first: int, free: seq<nat>, b: nat)
    requires IsChain(links, first, free) && b < |links| && b !in free
    ensures IsChain(links[b := first], b, [b] + free)
  {
    var now, more := links[b := first], [b] + free;
    forall i: nat | i < |more| ensures LinkedAt(now, more, i) {
      if i > 0 {
        assert LinkedAt(links, free, i - 1);
      }
    }
  }

  /** The users of allocated blocks may write what they like: only the first words of free blocks
      matter. */
  lemma UserMayWrite(links: seq<int>, first: int, free: seq<nat>, w: nat, value: int)
    requires IsChain(links, first, free) && w < |links| && w !in free
    ensures IsChain(links[w := value], first, free)
  {
    var now := links[w := value];
    forall i: nat | i < |free| ensures LinkedAt(now, free, i) {
      assert LinkedAt(links, free, i) && free[i] != w;
    }
  }

  /** The memory of the pool as an array of words, each large enough for a link; a block is known
      by the index of its first word. What the words of an allocated block hold is up to its user. */
  class QMPool {
    const links: array<int>
    const blockSize: nat  // in bytes
    const nTot: nat
    var freeHead: int
    var nFree: nat
    var nMin: nat
    ghost const blocks: set<nat>  // all blocks
    ghost var free: seq<nat>      // the free ones, the next one to be allocated first

    ghost predicate Valid()
      reads this, links
    {
      && IsChain(links[..], freeHead, free)
      && Distinct(free) && (forall b | b in free :: b in blocks)
      && (forall b | b in blocks :: b < links.Length) && |blocks| == nTot
      && nFree == |free| && nMin <= nFree <= nTot
    }

    /** Divides `poolSize` bytes into blocks of at least `size` bytes, with links of `linkSize`. */
    constructor (linkSize: nat, poolSize: nat, size: nat)
      requires 0 < linkSize && linkSize * Words(size, linkSize) <= poolSize
      ensures Valid() && fresh(links)
      ensures blockSize == linkSize * Words(size, linkSize) && nTot == poolSize / blockSize
      ensures |free| == nTot == nMin
      ensures forall i | 0 <= i < nTot :: free[i] == Words(size, linkSize) * i
    {
      var nblocks, bytes := RoundUp(linkSize, size);
      var n, mem, all := Chain(nblocks, bytes, poolSize);
      links, blockSize, nTot := mem, bytes, n;
      freeHead, nFree, nMin := 0, n, n;
      free := all;
      blocks := ToSet(all);
      new;
      DistinctCount(all);
    }

    /** Takes a block out of the pool, provided that more than `margin` are free. */
    method Get(margin: nat) returns (b: int)
      requires Valid()
      modifies this
      ensures Valid()
      ensures |old(free)| <= margin ==> b == NULL && free == old(free) && nMin == old(nMin)
      ensures |old(free)| > margin ==> b >= 0 && old(free) == [b] + free
      ensures |old(free)| > margin ==> nMin == if old(nMin) <= |free| then old(nMin) else |free|
    {
      if nFree > margin {
        b := freeHead;
        assert b != NULL;
        PopChain(links[..], freeHead, free);
        var next := links[b];
        assert |free| > 1 ==> free[1] in free && next == free[1];
        nFree := nFree - 1;
        if nFree == 0 {
          assert next == NULL;
          nMin := 0;
        } else {
          assert 0 <= next < links.Length && next in blocks;
          if nMin > nFree {
            nMin := nFree;
          }
        }
        freeHead := next;
        free := free[1..];
      } else {
        b := NULL;
      }
    }

    /** Returns an allocated block. That it is one implies that not all blocks are free. */
    method Put(b: nat)
      requires Valid() && b in blocks && b !in free
      modifies this, links
      ensures Valid() && free == [b] + old(free) && nMin == old(nMin)
    {
      SomeAllocated(free, blocks, b);
      assert nFree < nTot;
      PushChain(links[..], freeHead, free, b);
      ghost var was := links[..];
      links[b] := freeHead;
      assert links[..] == was[b := freeHead];
      freeHead := b;
      nFree := nFree + 1;
      free := [b] + free;
    }
  }

  // ------------------------------------------------------------- set-up

  /** The number of links that fit `size` bytes, at least one. */
  function Words(size: nat, linkSize: nat): nat
    requires linkSize > 0
  {
    if size <= linkSize then 1 else (size + linkSize - 1) / linkSize
  }

  /** The block size is rounded up to a whole number of links. */
  method RoundUp(linkSize: nat, size: nat) returns (nblocks: nat, bytes: nat)
    requires linkSize > 0
    ensures nblocks == Words(size, linkSize) && bytes == linkSize * nblocks
    ensures bytes >= size && (nblocks > 1 ==> bytes - linkSize < size)
  {
    bytes, nblocks := linkSize, 1;
    while bytes < size
      invariant nblocks >= 1 && bytes == linkSize * nblocks
      invariant nblocks > 1 ==> bytes - linkSize < size
    {
      bytes := bytes + linkSize;
      nblocks := nblocks + 1;
    }
    RoundedUp(size, linkSize, nblocks);
  }

  lemma RoundedUp(size: nat, linkSize: nat, n: nat)
    requires linkSize > 0 && n >= 1
    requires size <= linkSize * n && (n > 1 ==> linkSize * n - linkSize < size)
    ensures n == Words(size, linkSize)
  {
    if n > 1 {
      var r := size + linkSize - 1 - linkSize * n;
      DivisionIsUnique(size + linkSize - 1, n, r, linkSize);
      assert linkSize * 2 <= linkSize * n;
    } else {
      assert linkSize * n == linkSize;
    }
  }

  /** Chains all blocks that fit; the address of a block is the index of its first word. */
  method Chain(nblocks: nat, bytes: nat, poolSize: nat) returns (n: nat, links: array<int>, ghost free: seq<nat>)
    requires nblocks > 0 && 0 < bytes <= poolSize
    ensures fresh(links) && n == poolSize / bytes == |free|
    ensures IsChain(links[..], 0, free) && Distinct(free)
    ensures forall i | 0 <= i < |free| :: free[i] == nblocks * i
    ensures forall b | b in free :: b < links.Length
  {
    links := new int[nblocks * (poolSize / bytes)];
    var rest := poolSize - bytes;
    n := 1;
    var fb := 0;
    free := [0];
    assert bytes * 1 + rest == poolSize;
    Fits(nblocks, bytes, poolSize, 1, rest);
    while rest >= bytes
      invariant n >= 1 && |free| == n && 0 <= rest && bytes * n + rest == poolSize
      invariant fb == nblocks * (n - 1) && nblocks * n <= links.Length
      invariant forall i | 0 <= i < n :: free[i] == nblocks * i
      invariant forall i | 0 <= i < n :: 0 <= free[i] < links.Length
      invariant forall i | 0 <= i < n - 1 :: links[free[i]] == free[i + 1]
      invariant Distinct(free)
    {
      NextBlock(nblocks, bytes, poolSize, n, rest);
      links[fb] := fb + nblocks;
      fb := fb + nblocks;
      rest := rest - bytes;
      n := n + 1;
      free := free + [fb];
    }
    links[fb] := NULL;
    DivisionIsUnique(poolSize, n, rest, bytes);
    assert free[n - 1] == fb;
  }

  lemma Fits(nblocks: nat, bytes: nat, poolSize: nat, n: nat, rest: nat)
    requires bytes > 0 && bytes * n + rest == poolSize
    ensures nblocks * n <= nblocks * (poolSize / bytes)
  {
    AtLeast(poolSize, bytes, n);
    Monotone(nblocks, n, poolSize / bytes);
  }

  lemma AtLeast(x: nat, d: nat, n: nat)
    requires d > 0 && d * n <= x
    ensures n <= x / d
  {
    assert x == d * (x / d) + x % d;
    assert d * (x / d + 1) == d * (x / d) + d;
    if x / d < n {
      Monotone(d, x / d + 1, n);
    }
  }

  lemma Monotone(a: nat, m: nat, n: nat)
    requires m <= n
    ensures a * m <= a * n
  {}

  lemma NextBlock(nblocks: nat, bytes: nat, poolSize: nat, n: nat, rest: nat)
    requires nblocks > 0 && 0 < bytes <= rest && n >= 1 && bytes * n + rest == poolSize
    ensures bytes * (n + 1) + (rest - bytes) == poolSize
    ensures nblocks * n == nblocks * (n - 1) + nblocks
    ensures nblocks * (n + 1) == nblocks * n + nblocks <= nblocks * (poolSize / bytes)
    ensures forall i | 0 <= i < n :: nblocks * i < nblocks * n
  {
    Fits(nblocks, bytes, poolSize, n + 1, rest - bytes);
  }

  lemma SomeAllocated(free: seq<nat>, blocks: set<nat>, b: nat)
    requires Distinct(free) && (forall x | x in free :: x in blocks)
    requires b in blocks && b !in free
    ensures |free| < |blocks|
  {
    DistinctCount(free);
    assert ToSet(free) <= blocks - {b};
    SubsetCount(ToSet(free), blocks - {b});
  }
}
