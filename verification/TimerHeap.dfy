/** The array min-heap of cpp/epoll/MiniHeap.h, with the (seconds,
    microseconds) pairs the reactor keeps in it. */
module TimerHeap {

  datatype Time = Time(sec: int, usec: int)

  /** std::pair's order, and that of timercmp. */
  predicate Leq(a: Time, b: Time) {
    a.sec < b.sec || (a.sec == b.sec && a.usec <= b.usec)
  }

  /** Between proper times this is the order in microseconds. */
  lemma LeqIsInTime(a: Time, b: Time)
    requires 0 <= a.usec < 1000000 && 0 <= b.usec < 1000000
    ensures Leq(a, b) <==> 1000000 * a.sec + a.usec <= 1000000 * b.sec + b.usec
  {
  }

  function Parent(i: int): int {
    (i - 1) / 2
  }

  ghost predicate IsHeap(h: seq<Time>) {
    forall i :: 1 <= i < |h| ==> Leq(h[Parent(i)], h[i])
  }

  ghost predicate Sorted(s: seq<Time>) {
    forall i, j :: 0 <= i < j < |s| ==> Leq(s[i], s[j])
  }

  /** The root of a heap is a least element. */
  lemma {:induction false} RootIsLeast(h: seq<Time>, i: nat)
    requires IsHeap(h) && i < |h|
    ensures Leq(h[0], h[i])
  {
    if i > 0 {
      RootIsLeast(h, Parent(i));
    }
  }

  /** A heap but for the element at c, which may be too small for its place. */
  ghost predicate HeapAbove(h: seq<Time>, c: int) {
    && (forall i :: 1 <= i < |h| && i != c ==> Leq(h[Parent(i)], h[i]))
    && (forall i :: 1 <= i < |h| && Parent(i) == c && c > 0 ==> Leq(h[Parent(c)], h[i]))
  }

  /** A heap but for the element at p, which may be too great for its place. */
  ghost predicate HeapBelow(h: seq<Time>, p: int) {
    && (forall i :: 1 <= i < |h| && Parent(i) != p ==> Leq(h[Parent(i)], h[i]))
    && (forall i :: 1 <= i < |h| && Parent(i) == p && p > 0 ==> Leq(h[Parent(p)], h[i]))
  }

  ghost function Swap(h: seq<Time>, i: int, j: int): seq<Time>
    requires 0 <= i < |h| && 0 <= j < |h|
  {
    h[i := h[j]][j := h[i]]
  }

  lemma SwapUp(h: seq<Time>, c: int)
    requires HeapAbove(h, c) && 0 < c < |h| && !Leq(h[Parent(c)], h[c])
    ensures HeapAbove(Swap(h, c, Parent(c)), Parent(c))
  {
  }

  lemma SwapDown(h: seq<Time>, p: int, c: int)
    requires HeapBelow(h, p) && 0 <= p && 0 < c < |h| && Parent(c) == p && !Leq(h[p], h[c])
    requires forall i :: 1 <= i < |h| && Parent(i) == p ==> Leq(h[c], h[i])
    ensures HeapBelow(Swap(h, c, p), c)
  {
  }

  lemma SwapMultiset(h: seq<Time>, i: int, j: int)
    requires 0 <= i < |h| && 0 <= j < |h|
    ensures multiset(Swap(h, i, j)) == multiset(h)
  {
  }

  /** Moving the parent of the hole at c down into it, and the hole up. */
  lemma HoleUp(a: seq<Time>, c: int, temp: Time)
    requires 0 < c < |a| && HeapAbove(a[c := temp], c) && !Leq(a[Parent(c)], temp)
    ensures var moved := a[c := a[Parent(c)]];
            && HeapAbove(moved[Parent(c) := temp], Parent(c))
            && multiset(moved[Parent(c) := temp]) == multiset(a[c := temp])
  {
    SwapUp(a[c := temp], c);
    SwapMultiset(a[c := temp], c, Parent(c));
    assert Swap(a[c := temp], c, Parent(c)) == a[c := a[Parent(c)]][Parent(c) := temp];
  }

  /** Moving the smaller child of the hole at p up into it, and the hole down. */
  lemma HoleDown(a: seq<Time>, p: int, c: int, temp: Time)
    requires 0 <= p && 0 < c < |a| && Parent(c) == p && HeapBelow(a[p := temp], p) && !Leq(temp, a[c])
    requires forall i :: 1 <= i < |a| && Parent(i) == p ==> Leq(a[c], a[i])
    ensures var moved := a[p := a[c]];
            && HeapBelow(moved[c := temp], c)
            && multiset(moved[c := temp]) == multiset(a[p := temp])
  {
    SwapDown(a[p := temp], p, c);
    SwapMultiset(a[p := temp], c, p);
    assert Swap(a[p := temp], c, p) == a[p := a[c]][c := temp];
  }

  /** The element in hand fits the hole at p when it is not above the smaller child. */
  lemma HoleFits(a: seq<Time>, p: int, c: int, temp: Time)
    requires 0 <= p < |a| && 0 < c < |a| && Parent(c) == p && HeapBelow(a[p := temp], p) && Leq(temp, a[c])
    requires forall i :: 1 <= i < |a| && Parent(i) == p ==> Leq(a[c], a[i])
    ensures IsHeap(a[p := temp])
  {
  }

  lemma HoleIsLeaf(a: seq<Time>, p: int)
    requires 0 <= p && 2 * p + 1 >= |a| && HeapBelow(a, p)
    ensures IsHeap(a)
  {
  }

  lemma LeastAtRoot(h: seq<Time>)
    requires IsHeap(h) && h != []
    ensures forall t :: t in h ==> Leq(h[0], t)
    ensures (forall t :: t in h ==> 0 <= t.usec < 1000000) ==>
              forall t :: t in h ==> 1000000 * h[0].sec + h[0].usec <= 1000000 * t.sec + t.usec
  {
    forall t | t in h ensures Leq(h[0], t) {
      var i :| 0 <= i < |h| && h[i] == t;
      RootIsLeast(h, i);
    }
    if forall t :: t in h ==> 0 <= t.usec < 1000000 {
      forall t | t in h ensures 1000000 * h[0].sec + h[0].usec <= 1000000 * t.sec + t.usec {
        LeqIsInTime(h[0], t);
      }
    }
  }

  class MinHeap {
    const heap: array<Time>
    var curSize: int

    ghost predicate Shape()
      reads this
    {
      0 <= curSize <= heap.Length
    }

    ghost function Elements(): seq<Time>
      reads this, heap
      requires Shape()
    {
      heap[..curSize]
    }

    ghost predicate Valid()
      reads this, heap
    {
      Shape() && IsHeap(Elements())
    }

    constructor (n: nat)
      ensures Valid() && Elements() == [] && heap.Length == n && fresh(heap)
    {
      heap := new Time[n](_ => Time(0, 0));
      curSize := 0;
    }

    /** Insert: refuses exactly when the heap is full. */
    method Insert(x: Time) returns (ok: bool)
      requires Valid()
      modifies this, heap
      ensures Valid()
      ensures ok <==> old(curSize) < heap.Length
      ensures curSize == old(curSize) + if ok then 1 else 0
      ensures multiset(Elements()) == multiset(old(Elements())) + if ok then multiset{x} else multiset{}
    {
      if curSize == heap.Length {
        return false;
      }
      heap[curSize] := x;
      curSize := curSize + 1;
      assert heap[..curSize] == old(heap[..curSize]) + [x];
      FilterUp(curSize - 1);
      return true;
    }

    /** RemoveMin of a heap that is not empty: takes out a least element. */
    method RemoveMin() returns (x: Time)
      requires Valid() && curSize > 0
      modifies this, heap
      ensures Valid() && curSize == old(curSize) - 1
      ensures x == old(Elements()[0]) && multiset(old(Elements())) == multiset(Elements()) + multiset{x}
      ensures forall t :: t in old(Elements()) ==> Leq(x, t)
      ensures (forall t :: t in old(Elements()) ==> 0 <= t.usec < 1000000) ==>
                forall t :: t in old(Elements()) ==> 1000000 * x.sec + x.usec <= 1000000 * t.sec + t.usec
    {
      LeastAtRoot(Elements());
      x := heap[0];
      RemoveRoot();
    }

    /** The last element takes the place of the root, and sinks. */
    method RemoveRoot()
      requires Valid() && curSize > 0
      modifies this, heap
      ensures Valid() && curSize == old(curSize) - 1
      ensures multiset(old(Elements())) == multiset(Elements()) + multiset{old(heap[0])}
    {
      ghost var before := heap[..curSize];
      heap[0] := heap[curSize - 1];
      curSize := curSize - 1;
      LastToRoot(before, heap[..curSize]);
      if curSize > 0 {
        FilterDown(0, curSize - 1);
      }
    }

    /** GetMin */
    method GetMin() returns (x: Time)
      requires Valid() && curSize > 0
      ensures x == Elements()[0] && forall t :: t in Elements() ==> Leq(x, t)
    {
      x := heap[0];
      LeastAtRoot(Elements());
    }

    /** FilterUp: moves the element at start towards the root. */
    method FilterUp(start: int)
      requires Shape() && 0 <= start < curSize && HeapAbove(Elements(), start)
      modifies heap
      ensures Valid() && multiset(Elements()) == multiset(old(Elements()))
    {
      var child, parent := start, (start - 1) / 2;
      var temp := heap[child];
      ghost var all := multiset(Elements());
      assert Elements()[child := temp] == Elements();
      while child > 0
        invariant 0 <= child < curSize && (child > 0 ==> parent == Parent(child))
        invariant HeapAbove(Elements()[child := temp], child)
        invariant multiset(Elements()[child := temp]) == all
      {
        if Leq(heap[parent], temp) {
          break;
        }
        ghost var a := Elements();
        HoleUp(a, child, temp);
        heap[child] := heap[parent];
        assert Elements() == a[child := a[parent]];
        child := parent;
        parent := (child - 1) / 2;
      }
      ghost var a := Elements();
      heap[child] := temp;
      assert Elements() == a[child := temp];
    }

    /** The smaller of the two children, or the only one. */
    method SmallerChild(parent: int, end: int) returns (child: int)
      requires Shape() && 0 <= parent && 2 * parent + 1 <= end == curSize - 1
      ensures parent < child <= end && Parent(child) == parent
      ensures forall i :: 1 <= i < curSize && Parent(i) == parent ==> Leq(Elements()[child], Elements()[i])
    {
      child := parent * 2 + 1;
      if child + 1 <= end && !Leq(heap[child], heap[child + 1]) {
        child := child + 1;
      }
      forall i | 1 <= i < curSize && Parent(i) == parent
        ensures Leq(heap[child], heap[i])
      {
        assert i == 2 * parent + 1 || i == 2 * parent + 2;
      }
    }

    /** FilterDown: moves the element at start towards the leaves. */
    method FilterDown(start: int, end: int)
      requires Shape() && 0 <= start <= end == curSize - 1 && HeapBelow(Elements(), start)
      modifies heap
      ensures Valid() && multiset(Elements()) == multiset(old(Elements()))
    {
      var parent, child := start, start * 2 + 1;
      var temp := heap[parent];
      ghost var all := multiset(Elements());
      assert Elements()[parent := temp] == Elements();
      while child <= end
        invariant 0 <= parent < curSize && child == 2 * parent + 1
        invariant HeapBelow(Elements()[parent := temp], parent)
        invariant multiset(Elements()[parent := temp]) == all
        decreases curSize - parent
      {
        child := SmallerChild(parent, end);
        ghost var a := Elements();
        if Leq(temp, heap[child]) {
          HoleFits(a, parent, child, temp);
          break;
        }
        HoleDown(a, parent, child, temp);
        heap[parent] := heap[child];
        assert Elements() == a[parent := a[child]];
        parent := child;
        child := parent * 2 + 1;
      }
      ghost var a := Elements();
      if child > end {
        HoleIsLeaf(a[parent := temp], parent);
      }
      heap[parent] := temp;
      assert Elements() == a[parent := temp];
    }

    /** Taking everything out yields the elements in order. */
    method Drain() returns (out: seq<Time>)
      requires Valid()
      modifies this, heap
      ensures Valid() && curSize == 0
      ensures Sorted(out) && multiset(out) == multiset(old(Elements()))
    {
      out := [];
      while curSize > 0
        invariant Valid()
        invariant multiset(out) + multiset(Elements()) == multiset(old(Elements()))
        invariant Sorted(out) && AllBelow(out, Elements())
        decreases curSize
      {
        ghost var before := Elements();
        var x := RemoveMin();
        DrainStep(out, before, Elements(), x);
        out := out + [x];
      }
      assert Elements() == [];
    }
  }

  ghost predicate AllBelow(out: seq<Time>, rest: seq<Time>) {
    forall a, b :: a in out && b in rest ==> Leq(a, b)
  }

  lemma DrainStep(out: seq<Time>, before: seq<Time>, after: seq<Time>, x: Time)
    requires Sorted(out) && AllBelow(out, before)
    requires multiset(before) == multiset(after) + multiset{x} && forall t :: t in before ==> Leq(x, t)
    ensures Sorted(out + [x]) && AllBelow(out + [x], after)
    ensures multiset(out + [x]) + multiset(after) == multiset(out) + multiset(before)
  {
    assert x in multiset(before);
    forall t | t in after ensures t in before {
      assert t in multiset(after) && t in multiset(before);
    }
    forall i | 0 <= i < |out| ensures Leq(out[i], x) {
      assert out[i] in out && x in before;
    }
  }

  lemma MoveLast(first: Time, middle: seq<Time>, last: Time)
    ensures multiset([first] + middle + [last]) == multiset([last] + middle) + multiset{first}
  {
  }

  /** Below the root, everything but the last element is where it was. */
  lemma LastToRootBelow(before: seq<Time>, after: seq<Time>)
    requires IsHeap(before) && |before| == |after| + 1
    requires forall i :: 1 <= i < |after| ==> after[i] == before[i]
    ensures HeapBelow(after, 0)
  {
  }

  /** Putting the last element in the place of the root takes out the root. */
  lemma LastToRoot(before: seq<Time>, after: seq<Time>)
    requires IsHeap(before) && |before| == |after| + 1
    requires after == (if |before| == 1 then [] else [before[|before| - 1]] + before[1..|before| - 1])
    ensures multiset(before) == multiset(after) + multiset{before[0]}
    ensures HeapBelow(after, 0)
  {
    hide IsHeap, HeapBelow;
    LastToRootBelow(before, after);
    if |before| == 1 {
      assert before == [before[0]];
    } else {
      var last := before[|before| - 1];
      MoveLast(before[0], before[1..|before| - 1], last);
      assert before == [before[0]] + before[1..|before| - 1] + [last];
    }
  }
}
