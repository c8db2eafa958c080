/** The accounting of Clang/aio/ae/zmalloc.c in the build without
    HAVE_MALLOC_SIZE: a size header before each block, and one running total. */
module Zmalloc {

  /** What the build fixes: unit is sizeof(long), the rounding unit; prefix is
      PREFIX_SIZE; size_t arithmetic is modulo range. */
  datatype Build = Build(unit: int, prefix: int, range: int) {
    /** The unit is a power of two, and the prefix and the range are multiples of it,
        as on every machine the source is written for. */
    predicate Good() {
      PowerOfTwo(unit) && prefix >= 0 && range > 0 && prefix % unit == 0 && range % unit == 0
    }

    /** A size rounded up to a multiple of the unit, which the two stat macros and
        zmalloc_size do with a mask. */
    function Rounded(n: int): (r: int)
      requires Good() && 0 <= n
    {
      if n % unit != 0 then n + (unit - n % unit) else n
    }

    /** zmalloc_size of a block whose header says size. */
    function BlockSize(size: int): int
      requires Good() && 0 <= size
    {
      Rounded(size) + prefix
    }

    function Wrap(n: int): int
      requires Good()
    {
      n % range
    }
  }

  predicate PowerOfTwo(n: int) {
    n == 1 || (n > 1 && n % 2 == 0 && PowerOfTwo(n / 2))
  }

  /** a & b */
  function And(a: nat, b: nat): nat {
    if a == 0 || b == 0 then 0
    else 2 * And(a / 2, b / 2) + if a % 2 == 1 && b % 2 == 1 then 1 else 0
  }

  /** The mask with which the source rounds gives the remainder for powers of two, and
      for no other unit. */
  lemma MaskIsRemainder(unit: nat)
    requires unit > 0
    ensures PowerOfTwo(unit) <==> forall n: nat :: And(n, unit - 1) == n % unit
  {
    if PowerOfTwo(unit) {
      forall n: nat
        ensures And(n, unit - 1) == n % unit
      {
        MaskOf(n, unit);
      }
    } else {
      MaskMisses(unit);
      assert unit % unit == 0;
    }
  }

  lemma {:induction false} MaskOf(n: nat, unit: nat)
    requires PowerOfTwo(unit)
    ensures And(n, unit - 1) == n % unit
    decreases unit
  {
    if unit > 1 {
      var half := unit / 2;
      MaskOf(n / 2, half);
      MaskStep(n, half, And(n / 2, half - 1));
      Unique(n, unit, n / 2 / half, And(n, unit - 1));
    }
  }

  lemma MaskStep(n: nat, half: nat, r: nat)
    requires half > 0 && r == n / 2 % half
    ensures And(n, 2 * half - 1) == 2 * And(n / 2, half - 1) + n % 2
    ensures n == 2 * half * (n / 2 / half) + (2 * r + n % 2) && 2 * r + n % 2 < 2 * half
  {
    assert (2 * half - 1) / 2 == half - 1;
    AndZero(n / 2, half - 1);
  }

  lemma AndZero(a: nat, b: nat)
    ensures a == 0 || b == 0 ==> And(a, b) == 0
  {
  }

  lemma {:induction false} MaskMisses(unit: nat)
    requires unit > 0 && !PowerOfTwo(unit)
    ensures And(unit, unit - 1) != 0
  {
    var half := unit / 2;
    if unit % 2 == 1 {
      AndSelf(half);
    } else {
      assert (unit - 1) / 2 == half - 1;
      MaskMisses(half);
    }
  }

  lemma {:induction false} AndSelf(a: nat)
    ensures And(a, a) == a
  {
    if a > 0 {
      AndSelf(a / 2);
    }
  }

  /** Division is the only way to write a number as a multiple and a remainder. */
  lemma Unique(n: int, m: int, q: int, r: int)
    requires m > 0 && n == m * q + r && 0 <= r < m
    ensures n / m == q && n % m == r
  {
    var d := n / m - q;
    assert m * d == r - n % m;
    assert d >= 1 ==> m * d >= m;
    assert d <= -1 ==> m * d <= -m;
  }

  /** A multiple of m more or less does not change the remainder. */
  lemma ModShift(n: int, m: int, k: int)
    requires m > 0
    ensures (n + m * k) % m == n % m
  {
    assert n + m * k == m * (n / m + k) + n % m;
    Unique(n + m * k, m, n / m + k, n % m);
  }

  lemma Multiple(n: int, m: int) returns (k: int)
    requires m > 0 && n % m == 0
    ensures n == m * k
  {
    k := n / m;
  }

  /** The sum of zmalloc_size over the live blocks. */
  ghost function Total(b: Build, blocks: map<int, nat>): nat
    requires b.Good()
    decreases |blocks|
  {
    if blocks == map[] then 0
    else
      Inhabited(blocks);
      var p :| p in blocks;
      b.BlockSize(blocks[p]) + Total(b, blocks - {p})
  }

  lemma Inhabited(blocks: map<int, nat>)
    requires blocks != map[]
    ensures exists p :: p in blocks
  {
    assert (forall p :: p !in blocks) ==> blocks == map[];
  }

  lemma {:induction false} TotalSplit(b: Build, blocks: map<int, nat>, p: int)
    requires b.Good() && p in blocks
    ensures Total(b, blocks) == b.BlockSize(blocks[p]) + Total(b, blocks - {p})
    decreases |blocks|
  {
    var q :| q in blocks && Total(b, blocks) == b.BlockSize(blocks[q]) + Total(b, blocks - {q});
    if p != q {
      TotalSplit(b, blocks - {q}, p);
      TotalSplit(b, blocks - {p}, q);
      assert blocks - {q} - {p} == blocks - {p} - {q};
    }
  }

  lemma TotalAdd(b: Build, blocks: map<int, nat>, p: int, size: nat)
    requires b.Good() && p !in blocks
    ensures Total(b, blocks[p := size]) == Total(b, blocks) + b.BlockSize(size)
  {
    TotalSplit(b, blocks[p := size], p);
    assert blocks[p := size] - {p} == blocks;
  }

  /** A size is rounded to the next multiple of the unit. */
  lemma RoundedIsNext(b: Build, n: nat)
    requires b.Good()
    ensures b.Rounded(n) % b.unit == 0 && n <= b.Rounded(n) < n + b.unit
  {
    if n % b.unit != 0 {
      var q := n / b.unit;
      assert b.Rounded(n) == b.unit * (q + 1) + 0;
      Unique(b.Rounded(n), b.unit, q + 1, 0);
    }
  }

  lemma RoundedShift(b: Build, n: nat, k: nat)
    requires b.Good() && n + b.unit * k >= 0
    ensures b.Rounded(n + b.unit * k) == b.Rounded(n) + b.unit * k
  {
    ModShift(n, b.unit, k);
  }

  /** What the macros add for a block allocated with its prefix: rounding the size
      with the prefix is rounding without it, because the prefix is a multiple of the
      rounding unit. */
  lemma RoundWithPrefix(b: Build, size: nat)
    requires b.Good()
    ensures b.Rounded(size + b.prefix) == b.BlockSize(size)
  {
    var k := Multiple(b.prefix, b.unit);
    assert k >= 0;
    RoundedShift(b, size, k);
  }

  lemma WrapShift(b: Build, n: int, k: int)
    requires b.Good()
    ensures b.Wrap(n + b.range * k) == b.Wrap(n)
  {
    ModShift(n, b.range, k);
  }

  /** A size that wraps around when the prefix is added is still accounted for
      correctly, because the rounding unit divides the range of size_t. */
  lemma WrapRounded(b: Build, n: nat)
    requires b.Good()
    ensures b.Wrap(b.Rounded(b.Wrap(n))) == b.Wrap(b.Rounded(n))
  {
    var q := n / b.range;
    var m := Multiple(b.range, b.unit);
    assert m >= 0 && q >= 0;
    assert n == b.Wrap(n) + b.unit * (m * q) by {
      assert b.range * q == b.unit * (m * q);
    }
    hide Build.Wrap, Build.Rounded, Build.Good;
    RoundedShift(b, b.Wrap(n), m * q);
    assert b.Rounded(n) == b.Rounded(b.Wrap(n)) + b.range * q;
    WrapShift(b, b.Rounded(b.Wrap(n)), q);
  }

  /** What the code adds to the statistics, which wraps when the size is rounded up. */
  lemma Masked(b: Build, n: nat)
    requires b.Good()
    ensures And(n, b.unit - 1) == n % b.unit
    ensures b.Rounded(n) == n + if And(n, b.unit - 1) != 0 then b.unit - And(n, b.unit - 1) else 0
  {
    MaskOf(n, b.unit);
  }

  lemma WrapSplit(b: Build, x: int) returns (k: int)
    requires b.Good()
    ensures x == b.Wrap(x) + b.range * k
  {
    k := x / b.range;
  }

  lemma WrapSum(b: Build, x: int, y: int)
    requires b.Good()
    ensures b.Wrap(b.Wrap(x) + y) == b.Wrap(x + y) && b.Wrap(b.Wrap(x) - y) == b.Wrap(x - y)
  {
    hide Build.Wrap, Build.Good;
    var k := WrapSplit(b, x);
    WrapShift(b, b.Wrap(x) + y, k);
    WrapShift(b, b.Wrap(x) - y, k);
  }

  lemma WrapTerm(b: Build, x: int, y: int)
    requires b.Good()
    ensures b.Wrap(x + b.Wrap(y)) == b.Wrap(x + y) && b.Wrap(x - b.Wrap(y)) == b.Wrap(x - y)
  {
    hide Build.Wrap, Build.Good;
    var k := WrapSplit(b, y);
    WrapShift(b, x + b.Wrap(y), k);
    WrapShift(b, x - y, k);
  }

  /** So the two macros add and subtract the rounded size. */
  lemma Counted(b: Build, used: int, n: nat)
    requires b.Good()
    ensures var rounded := if And(n, b.unit - 1) != 0 then b.Wrap(n + (b.unit - And(n, b.unit - 1))) else n;
            && b.Wrap(used + rounded) == b.Wrap(used + b.Rounded(n))
            && b.Wrap(used - rounded) == b.Wrap(used - b.Rounded(n))
  {
    Masked(b, n);
    hide Build.Wrap, Build.Rounded, Build.Good, And;
    WrapTerm(b, used, b.Rounded(n));
  }

  lemma WrapSmall(b: Build, n: nat)
    requires b.Good()
    ensures n < b.range ==> b.Wrap(n) == n
  {
    if n < b.range {
      Unique(n, b.range, 0, n);
    }
  }

  /** What the two macros are given for a block with its prefix keeps the balance. */
  lemma Allocated(b: Build, blocks: map<int, nat>, p: int, size: nat)
    requires b.Good() && p !in blocks
    ensures b.Wrap(b.Wrap(Total(b, blocks)) + b.Rounded(b.Wrap(size + b.prefix)))
            == b.Wrap(Total(b, blocks[p := size]))
  {
    TotalAdd(b, blocks, p, size);
    RoundWithPrefix(b, size);
    WrapRounded(b, size + b.prefix);
    var total, rounded := Total(b, blocks), b.Rounded(b.Wrap(size + b.prefix));
    hide Build.Wrap, Build.Rounded, Build.Good;
    WrapSum(b, total, rounded);
    WrapTerm(b, total, rounded);
    WrapTerm(b, total, b.BlockSize(size));
  }

  lemma Freed(b: Build, blocks: map<int, nat>, p: int)
    requires b.Good() && p in blocks
    ensures b.Wrap(b.Wrap(Total(b, blocks)) - b.Rounded(b.Wrap(blocks[p] + b.prefix)))
            == b.Wrap(Total(b, blocks - {p}))
  {
    TotalSplit(b, blocks, p);
    RoundWithPrefix(b, blocks[p]);
    WrapRounded(b, blocks[p] + b.prefix);
    var total, rounded := Total(b, blocks), b.Rounded(b.Wrap(blocks[p] + b.prefix));
    hide Build.Wrap, Build.Rounded, Build.Good;
    WrapSum(b, total, rounded);
    WrapTerm(b, total, rounded);
    WrapTerm(b, total, b.BlockSize(blocks[p]));
  }

  /** So does what zrealloc gives them, without the prefix. */
  lemma Reallocated(b: Build, blocks: map<int, nat>, p: int, where: int, size: nat)
    requires b.Good() && p in blocks && (where !in blocks || where == p)
    ensures b.Wrap(b.Wrap(b.Wrap(Total(b, blocks)) - b.Rounded(blocks[p])) + b.Rounded(size))
            == b.Wrap(Total(b, (blocks - {p})[where := size]))
  {
    TotalSplit(b, blocks, p);
    TotalAdd(b, blocks - {p}, where, size);
    var total, before, after := Total(b, blocks), b.Rounded(blocks[p]), b.Rounded(size);
    hide Build.Wrap, Build.Rounded, Build.Good;
    WrapSum(b, total, before);
    WrapSum(b, total - before, after);
  }

  class Allocator {
    const build: Build
    var usedMemory: int
    /** The live blocks: the pointer handed out, and the size in its header. */
    var blocks: map<int, nat>

    /** used_memory is the sum of zmalloc_size over the live blocks, as a size_t;
        so it is exactly that sum as long as the sum fits. */
    ghost predicate Valid()
      reads this
    {
      && build.Good() && 0 !in blocks
      && usedMemory == build.Wrap(Total(build, blocks))
      && forall p :: p in blocks ==> blocks[p] < build.range
    }

    constructor (build: Build)
      requires build.Good()
      ensures Valid() && this.build == build && blocks == map[] && usedMemory == 0
    {
      WrapSmall(build, 0);
      this.build := build;
      usedMemory := 0;
      blocks := map[];
    }

    /** update_zmalloc_stat_alloc */
    method StatAlloc(n: nat)
      requires build.Good() && n < build.range
      modifies this`usedMemory
      ensures usedMemory == build.Wrap(old(usedMemory) + build.Rounded(n))
    {
      var rounded := n;
      Counted(build, usedMemory, n);
      hide Build.Wrap, Build.Rounded, And;
      if And(rounded, build.unit - 1) != 0 {
        rounded := build.Wrap(rounded + (build.unit - And(rounded, build.unit - 1)));
      }
      usedMemory := build.Wrap(usedMemory + rounded);
    }

    /** update_zmalloc_stat_free */
    method StatFree(n: nat)
      requires build.Good() && n < build.range
      modifies this`usedMemory
      ensures usedMemory == build.Wrap(old(usedMemory) - build.Rounded(n))
    {
      var rounded := n;
      Counted(build, usedMemory, n);
      hide Build.Wrap, Build.Rounded, And;
      if And(rounded, build.unit - 1) != 0 {
        rounded := build.Wrap(rounded + (build.unit - And(rounded, build.unit - 1)));
      }
      usedMemory := build.Wrap(usedMemory - rounded);
    }

    /** zmalloc, and zcalloc, which differs only in clearing the block. where is
        the pointer malloc's block gives, 0 when malloc fails and the source aborts. */
    method Malloc(size: nat, where: int) returns (p: int)
      requires Valid() && where !in blocks && size < build.range
      modifies this
      ensures Valid() && p == where
      ensures blocks == if where == 0 then old(blocks) else old(blocks)[where := size]
      ensures where == 0 ==> usedMemory == old(usedMemory)
    {
      p := where;
      if where == 0 {
        return;
      }
      Allocated(build, blocks, where, size);
      blocks := blocks[where := size];
      StatAlloc(build.Wrap(size + build.prefix));
    }

    /** zfree */
    method Free(p: int)
      requires Valid() && (p == 0 || p in blocks)
      modifies this
      ensures Valid() && blocks == old(blocks) - {p}
    {
      if p == 0 {
        assert blocks - {p} == blocks;
        return;
      }
      Freed(build, blocks, p);
      var oldsize := blocks[p];
      StatFree(build.Wrap(oldsize + build.prefix));
      blocks := blocks - {p};
    }

    /** zrealloc: the statistics leave the prefix out both times, which comes to
        the same. where is the new pointer; it may be the old one. */
    method Realloc(p: int, size: nat, where: int) returns (newptr: int)
      requires Valid() && (p == 0 || p in blocks) && (where !in blocks || where == p) && size < build.range
      modifies this
      ensures Valid() && newptr == where
      ensures blocks == if where == 0 then old(blocks) else (old(blocks) - {p})[where := size]
    {
      hide Build.Wrap, Build.Rounded, Build.Good;
      if p == 0 {
        newptr := Malloc(size, where);
        assert old(blocks) - {p} == old(blocks);
        return;
      }
      newptr := where;
      if where == 0 {
        return;
      }
      var oldsize := blocks[p];
      Reallocated(build, blocks, p, where, size);
      blocks := (blocks - {p})[where := size];
      StatFree(oldsize);
      StatAlloc(size);
    }

    /** zmalloc_used_memory: exactly the live total while that fits a size_t. */
    method UsedMemory() returns (n: int)
      requires Valid()
      ensures Total(build, blocks) < build.range ==> n == Total(build, blocks)
    {
      TotalFits();
      n := usedMemory;
    }

    lemma TotalFits()
      requires Valid()
      ensures Total(build, blocks) < build.range ==> usedMemory == Total(build, blocks)
    {
      WrapSmall(build, Total(build, blocks));
    }
  }
}
