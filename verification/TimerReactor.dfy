/** The timers of EventHanderSet in cpp/epoll/reactor.cpp: a heap of times used
    as an index over a multimap from times to handlers. */
module TimerReactor {
  import opened Sequences
  import opened TimerHeap

  type Handler = nat

  /** One entry of the multimap. */
  datatype Entry = Entry(time: Time, handler: Handler)

  /** std::multimap: entries in the order of their keys, equal keys in the order
      they were inserted. */
  ghost predicate Ordered(m: seq<Entry>) {
    forall i, j :: 0 <= i < j < |m| ==> Leq(m[i].time, m[j].time)
  }

  /** lower_bound: the first entry not before t. */
  function LowerBound(m: seq<Entry>, t: Time): (i: nat)
    ensures i <= |m|
    ensures forall j :: 0 <= j < i ==> !Leq(t, m[j].time)
    ensures i < |m| ==> Leq(t, m[i].time)
  {
    if m == [] || Leq(t, m[0].time) then 0 else 1 + LowerBound(m[1..], t)
  }

  /** upper_bound: the first entry after t. */
  function UpperBound(m: seq<Entry>, t: Time): (i: nat)
    ensures i <= |m|
    ensures forall j :: 0 <= j < i ==> Leq(m[j].time, t)
    ensures i < |m| ==> !Leq(m[i].time, t)
  {
    if m == [] || !Leq(m[0].time, t) then 0 else 1 + UpperBound(m[1..], t)
  }

  /** The number of entries with key t. */
  function Count(m: seq<Entry>, t: Time): nat {
    if m == [] then 0 else (if m[|m| - 1].time == t then 1 else 0) + Count(m[..|m| - 1], t)
  }

  /** Every key has at least as many copies in the heap as in the multimap. */
  ghost predicate Covered(heap: multiset<Time>, m: seq<Entry>) {
    forall t :: heap[t] >= Count(m, t)
  }

  /** The entries whose key is in ts, and those whose key is not. */
  ghost function Keep(m: seq<Entry>, ts: set<Time>): seq<Entry> {
    if m == [] then []
    else Keep(m[..|m| - 1], ts) + if m[|m| - 1].time in ts then [m[|m| - 1]] else []
  }

  ghost function Drop(m: seq<Entry>, ts: set<Time>): seq<Entry> {
    if m == [] then []
    else Drop(m[..|m| - 1], ts) + if m[|m| - 1].time in ts then [] else [m[|m| - 1]]
  }

  lemma {:induction false} CountMembers(m: seq<Entry>, t: Time)
    ensures Count(m, t) > 0 <==> exists e :: e in m && e.time == t
  {
    if m != [] {
      CountMembers(m[..|m| - 1], t);
      assert m == m[..|m| - 1] + [m[|m| - 1]];
      assert m[|m| - 1] in m;
    }
  }

  lemma {:induction false} CountConcat(a: seq<Entry>, b: seq<Entry>, t: Time)
    ensures Count(a + b, t) == Count(a, t) + Count(b, t)
  {
    if b == [] {
      assert a + b == a;
    } else {
      CountConcat(a, b[..|b| - 1], t);
      assert (a + b)[..|a + b| - 1] == a + b[..|b| - 1];
    }
  }

  lemma {:induction false} DropMembers(m: seq<Entry>, ts: set<Time>)
    requires Ordered(m)
    ensures forall e :: e in Drop(m, ts) <==> e in m && e.time !in ts
    ensures Ordered(Drop(m, ts))
  {
    if m != [] {
      var init := m[..|m| - 1];
      DropMembers(init, ts);
      assert m == init + [m[|m| - 1]];
      forall e | e in init ensures Leq(e.time, m[|m| - 1].time) {
        var i :| 0 <= i < |init| && init[i] == e;
      }
    }
  }

  lemma Last(a: seq<Entry>, e: Entry, ts: set<Time>)
    ensures e.time in ts ==> Keep(a + [e], ts) == Keep(a, ts) + [e] && Drop(a + [e], ts) == Drop(a, ts)
    ensures e.time !in ts ==> Keep(a + [e], ts) == Keep(a, ts) && Drop(a + [e], ts) == Drop(a, ts) + [e]
  {
    assert (a + [e])[..|a|] == a;
    assert Keep(a, ts) + [] == Keep(a, ts) && Drop(a, ts) + [] == Drop(a, ts);
  }

  /** Taking the entries of an ever later time one time after another is taking
      the entries of all those times at once. */
  lemma {:induction false} KeepMore(m: seq<Entry>, ts: set<Time>, t: Time)
    requires Ordered(m) && forall u :: u in ts ==> Leq(u, t)
    ensures Keep(m, ts + {t}) == Keep(m, ts) + Keep(Drop(m, ts), {t})
    ensures Drop(m, ts + {t}) == Drop(Drop(m, ts), {t})
  {
    if m != [] {
      var init, last := m[..|m| - 1], m[|m| - 1];
      assert m == init + [last];
      KeepMore(init, ts, t);
      Last(init, last, ts);
      Last(init, last, ts + {t});
      if last.time in ts {
        NoneAt(init, ts, t, last.time);
        Trade(Keep(init, ts), Keep(Drop(init, ts), {t}), last);
      } else {
        Last(Drop(init, ts), last, {t});
        Associates(Keep(init, ts), Keep(Drop(init, ts), {t}), [last]);
      }
    }
  }

  lemma Trade(a: seq<Entry>, b: seq<Entry>, e: Entry)
    requires b == []
    ensures (a + b) + [e] == (a + [e]) + b
  {
  }

  lemma DropMember(m: seq<Entry>, ts: set<Time>, i: nat, last: Time)
    requires Ordered(m) && i < |Drop(m, ts)|
    requires forall j :: 0 <= j < |m| ==> Leq(m[j].time, last)
    ensures Drop(m, ts)[i].time !in ts && Leq(Drop(m, ts)[i].time, last)
  {
    DropMembers(m, ts);
    assert Drop(m, ts)[i] in Drop(m, ts);
  }

  /** Once times up to last are dropped, nothing at t is left below an entry of a dropped time. */
  lemma NoneAt(m: seq<Entry>, ts: set<Time>, t: Time, last: Time)
    requires Ordered(m) && last in ts && Leq(last, t)
    requires forall i :: 0 <= i < |m| ==> Leq(m[i].time, last)
    ensures Keep(Drop(m, ts), {t}) == []
  {
    forall i | 0 <= i < |Drop(m, ts)|
      ensures Drop(m, ts)[i].time !in ts && Leq(Drop(m, ts)[i].time, last)
    {
      DropMember(m, ts, i, last);
    }
    NoneLeft(Drop(m, ts), ts, t, last);
  }

  lemma NoneLeft(d: seq<Entry>, ts: set<Time>, t: Time, last: Time)
    requires last in ts && Leq(last, t)
    requires forall i :: 0 <= i < |d| ==> d[i].time !in ts && Leq(d[i].time, last)
    ensures Keep(d, {t}) == []
  {
    assert forall i :: 0 <= i < |d| ==> d[i].time != t;
    KeepNone(d, t);
  }

  lemma {:induction false} KeepNone(d: seq<Entry>, t: Time)
    requires forall i :: 0 <= i < |d| ==> d[i].time != t
    ensures Keep(d, {t}) == [] && Drop(d, {t}) == d
  {
    hide Keep, Drop;
    if d == [] {
      NothingToKeep(t);
    } else {
      var init, last := d[..|d| - 1], d[|d| - 1];
      KeepNone(init, t);
      assert d == init + [last];
      Last(init, last, {t});
    }
  }

  lemma NothingToKeep(t: Time)
    ensures Keep([], {t}) == [] && Drop([], {t}) == []
  {
  }

  /** The entries between the two bounds are exactly those at t. */
  lemma {:induction false} BoundsSplit(m: seq<Entry>, t: Time)
    requires Ordered(m)
    ensures LowerBound(m, t) <= UpperBound(m, t)
    ensures m[LowerBound(m, t)..UpperBound(m, t)] == Keep(m, {t})
    ensures m[..LowerBound(m, t)] + m[UpperBound(m, t)..] == Drop(m, {t})
  {
    var lo, hi := LowerBound(m, t), UpperBound(m, t);
    assert hi < |m| && hi < lo ==> !Leq(t, m[hi].time);
    KeepRange(m, t, lo, hi);
  }

  /** The entries before the bounds, between them, and after them. */
  lemma Parts(m: seq<Entry>, t: Time) returns (a: seq<Entry>, b: seq<Entry>, c: seq<Entry>)
    requires Ordered(m)
    ensures m == a + b + c && |a| == LowerBound(m, t) && |a| + |b| == UpperBound(m, t)
    ensures b == Keep(m, {t}) && a + c == Drop(m, {t}) && Ordered(Drop(m, {t}))
  {
    BoundsSplit(m, t);
    DropMembers(m, {t});
    var lo, hi := LowerBound(m, t), UpperBound(m, t);
    Thirds(m, lo, hi);
    a, b, c := m[..lo], m[lo..hi], m[hi..];
  }

  lemma {:induction false} KeepRange(m: seq<Entry>, t: Time, lo: nat, hi: nat)
    requires lo <= hi <= |m|
    requires forall i :: 0 <= i < |m| ==> (m[i].time == t <==> lo <= i < hi)
    ensures m[lo..hi] == Keep(m, {t})
    ensures m[..lo] + m[hi..] == Drop(m, {t})
  {
    hide Keep, Drop;
    var a, b, c := m[..lo], m[lo..hi], m[hi..];
    Thirds(m, lo, hi);
    ThirdsTimes(m, t, lo, hi);
    KeepMiddle(a, b, c, t);
  }

  lemma ThirdsTimes(m: seq<Entry>, t: Time, lo: nat, hi: nat)
    requires lo <= hi <= |m|
    requires forall i :: 0 <= i < |m| ==> (m[i].time == t <==> lo <= i < hi)
    ensures forall i :: 0 <= i < lo ==> m[..lo][i].time != t
    ensures forall i :: 0 <= i < hi - lo ==> m[lo..hi][i].time == t
    ensures forall i :: 0 <= i < |m| - hi ==> m[hi..][i].time != t
  {
  }

  lemma KeepMiddle(a: seq<Entry>, b: seq<Entry>, c: seq<Entry>, t: Time)
    requires forall i :: 0 <= i < |a| ==> a[i].time != t
    requires forall i :: 0 <= i < |b| ==> b[i].time == t
    requires forall i :: 0 <= i < |c| ==> c[i].time != t
    ensures Keep(a + b + c, {t}) == b && Drop(a + b + c, {t}) == a + c
  {
    KeepNone(a, t);
    KeepNone(c, t);
    KeepAll(b, t);
    KeepConcat(a, b, {t});
    KeepConcat(a + b, c, {t});
    NothingAround(Keep(a, {t}), b, Keep(c, {t}));
    NothingBetween(a, Drop(b, {t}), c);
  }

  lemma NothingAround(a: seq<Entry>, b: seq<Entry>, c: seq<Entry>)
    requires a == [] && c == []
    ensures a + b + c == b
  {
  }

  lemma NothingBetween(a: seq<Entry>, b: seq<Entry>, c: seq<Entry>)
    requires b == []
    ensures a + b + c == a + c
  {
  }

  lemma Thirds(m: seq<Entry>, lo: nat, hi: nat)
    requires lo <= hi <= |m|
    ensures m == m[..lo] + m[lo..hi] + m[hi..]
  {
  }

  lemma {:induction false} KeepAll(d: seq<Entry>, t: Time)
    requires forall i :: 0 <= i < |d| ==> d[i].time == t
    ensures Keep(d, {t}) == d && Drop(d, {t}) == []
  {
    if d != [] {
      KeepAll(d[..|d| - 1], t);
    }
  }

  lemma {:induction false} KeepConcat(a: seq<Entry>, b: seq<Entry>, ts: set<Time>)
    ensures Keep(a + b, ts) == Keep(a, ts) + Keep(b, ts)
    ensures Drop(a + b, ts) == Drop(a, ts) + Drop(b, ts)
  {
    if b == [] {
      assert a + b == a;
      assert Keep(a, ts) + [] == Keep(a, ts) && Drop(a, ts) + [] == Drop(a, ts);
    } else {
      var init, last := b[..|b| - 1], b[|b| - 1];
      KeepConcat(a, init, ts);
      assert b == init + [last] && a + b == (a + init) + [last];
      Last(init, last, ts);
      Last(a + init, last, ts);
      Associates(Keep(a, ts), Keep(init, ts), [last]);
      Associates(Drop(a, ts), Drop(init, ts), [last]);
    }
  }

  /** insert: at the upper bound of its key. */
  function InsertEntry(m: seq<Entry>, e: Entry): seq<Entry> {
    m[..UpperBound(m, e.time)] + [e] + m[UpperBound(m, e.time)..]
  }

  /** In microseconds: an entry is inserted behind all that are due no later, equal ones
      included, and before all that are due later. */
  lemma InsertedInTime(m: seq<Entry>, e: Entry)
    requires Ordered(m) && 0 <= e.time.usec < 1000000 && forall f :: f in m ==> 0 <= f.time.usec < 1000000
    ensures exists k :: 0 <= k <= |m| && InsertEntry(m, e) == m[..k] + [e] + m[k..]
              && (forall i :: 0 <= i < k ==>
                    1000000 * m[i].time.sec + m[i].time.usec <= 1000000 * e.time.sec + e.time.usec)
              && (forall i :: k <= i < |m| ==>
                    1000000 * m[i].time.sec + m[i].time.usec > 1000000 * e.time.sec + e.time.usec)
  {
    var k := UpperBound(m, e.time);
    SplitInTime(m, e.time);
    assert InsertEntry(m, e) == m[..k] + [e] + m[k..];
  }

  lemma SplitInTime(m: seq<Entry>, now: Time)
    requires Ordered(m) && 0 <= now.usec < 1000000 && forall f :: f in m ==> 0 <= f.time.usec < 1000000
    ensures forall i :: 0 <= i < |m| ==>
              (i < UpperBound(m, now)
               <==> 1000000 * m[i].time.sec + m[i].time.usec <= 1000000 * now.sec + now.usec)
  {
    var k := UpperBound(m, now);
    forall i | 0 <= i < |m|
      ensures i < k <==> 1000000 * m[i].time.sec + m[i].time.usec <= 1000000 * now.sec + now.usec
    {
      assert m[i] in m;
      LeqIsInTime(m[i].time, now);
      if k < i {
        assert Leq(m[k].time, m[i].time);
      }
    }
  }

  /** A scan of a plain multimap in microseconds: what fires is the front of it, and is
      exactly what the clock has reached. */
  lemma ScanInTime(m: seq<Entry>, now: Time)
    requires Ordered(m) && 0 <= now.usec < 1000000 && forall f :: f in m ==> 0 <= f.time.usec < 1000000
    ensures var fired, left := MapFires(m, Scan(now)), MapAfter(m, Scan(now));
            && m == fired + left
            && (forall e :: e in fired ==>
                  1000000 * e.time.sec + e.time.usec <= 1000000 * now.sec + now.usec)
            && (forall e :: e in left ==>
                  1000000 * e.time.sec + e.time.usec > 1000000 * now.sec + now.usec)
  {
    SplitInTime(m, now);
    hide Ordered, UpperBound;
    SplitAtLimit(m, UpperBound(m, now), 1000000 * now.sec + now.usec);
  }

  lemma SplitAtLimit(m: seq<Entry>, k: nat, limit: int)
    requires k <= |m|
    requires forall i :: 0 <= i < |m| ==> (i < k <==> 1000000 * m[i].time.sec + m[i].time.usec <= limit)
    ensures m == m[..k] + m[k..]
    ensures forall e :: e in m[..k] ==> 1000000 * e.time.sec + e.time.usec <= limit
    ensures forall e :: e in m[k..] ==> 1000000 * e.time.sec + e.time.usec > limit
  {
    forall e | e in m[..k] ensures 1000000 * e.time.sec + e.time.usec <= limit {
      var i :| 0 <= i < k && m[i] == e;
    }
    forall e | e in m[k..] ensures 1000000 * e.time.sec + e.time.usec > limit {
      var i :| k <= i < |m| && m[i] == e;
    }
  }

  /** The order of a multimap in microseconds. */
  lemma OrderedInTime(m: seq<Entry>)
    requires forall f :: f in m ==> 0 <= f.time.usec < 1000000
    ensures Ordered(m) <==> forall i, j :: 0 <= i < j < |m| ==>
              1000000 * m[i].time.sec + m[i].time.usec <= 1000000 * m[j].time.sec + m[j].time.usec
  {
    forall i, j | 0 <= i < j < |m|
      ensures Leq(m[i].time, m[j].time)
              <==> 1000000 * m[i].time.sec + m[i].time.usec <= 1000000 * m[j].time.sec + m[j].time.usec
    {
      assert m[i] in m && m[j] in m;
      LeqIsInTime(m[i].time, m[j].time);
    }
  }

  lemma InsertKeeps(m: seq<Entry>, e: Entry)
    requires Ordered(m)
    ensures Ordered(InsertEntry(m, e))
    ensures forall t :: Count(InsertEntry(m, e), t) == Count(m, t) + if t == e.time then 1 else 0
  {
    var k := UpperBound(m, e.time);
    InsertOrdered(m, e, k);
    forall t ensures Count(InsertEntry(m, e), t) == Count(m, t) + if t == e.time then 1 else 0 {
      assert m == m[..k] + m[k..];
      CountRemoved(m[..k], e, m[k..], t);
    }
  }

  lemma InsertOrdered(m: seq<Entry>, e: Entry, k: nat)
    requires Ordered(m) && k <= |m|
    requires (forall j :: 0 <= j < k ==> Leq(m[j].time, e.time)) && (k < |m| ==> !Leq(m[k].time, e.time))
    ensures Ordered(m[..k] + [e] + m[k..])
  {
    assert forall j :: k <= j < |m| ==> Leq(m[k].time, m[j].time);
  }

  lemma RemoveOrdered(m: seq<Entry>, k: nat)
    requires Ordered(m) && k < |m|
    ensures Ordered(m[..k] + m[k + 1..])
  {
  }

  lemma RemoveKeeps(m: seq<Entry>, k: nat)
    requires Ordered(m) && k < |m|
    ensures Ordered(m[..k] + m[k + 1..])
    ensures forall t :: Count(m[..k] + m[k + 1..], t) + (if t == m[k].time then 1 else 0) == Count(m, t)
  {
    RemoveOrdered(m, k);
    hide Ordered, Count;
    var a, e, b := m[..k], m[k], m[k + 1..];
    assert m == a + [e] + b;
    forall t ensures Count(a + b, t) + (if t == e.time then 1 else 0) == Count(m, t) {
      CountRemoved(a, e, b, t);
    }
  }

  lemma CountRemoved(a: seq<Entry>, e: Entry, b: seq<Entry>, t: Time)
    ensures Count(a + b, t) + (if t == e.time then 1 else 0) == Count(a + [e] + b, t)
  {
    CountConcat(a, b, t);
    CountConcat(a + [e], b, t);
    CountConcat(a, [e], t);
    assert [e][..0] == [];
  }

  class EventHandlerSet {
    const timerMinHeap: MinHeap
    var timerMultiMap: seq<Entry>

    ghost function Times(): multiset<Time>
      reads timerMinHeap, timerMinHeap.heap
      requires timerMinHeap.Shape()
    {
      multiset(timerMinHeap.Elements())
    }

    ghost predicate Valid()
      reads this, timerMinHeap, timerMinHeap.heap
    {
      timerMinHeap.Valid() && Ordered(timerMultiMap)
    }

    constructor (capacity: nat)
      ensures Valid() && Times() == multiset{} && timerMultiMap == []
      ensures fresh(timerMinHeap) && fresh(timerMinHeap.heap) && timerMinHeap.heap.Length == capacity
    {
      timerMinHeap := new MinHeap(capacity);
      timerMultiMap := [];
    }

    /** AddTimerEventHandler ignores that a full heap refuses the time. The index
        keeps covering the multimap exactly when the heap takes the time, or
        has a copy of it to spare. */
    method AddTimerEventHandler(endtime: Time, handler: Handler)
      requires Valid()
      modifies this, timerMinHeap, timerMinHeap.heap
      ensures Valid() && timerMinHeap.curSize <= old(timerMinHeap.curSize) + 1
      ensures timerMultiMap == InsertEntry(old(timerMultiMap), Entry(endtime, handler))
      ensures Times() == old(Times())
                         + if old(timerMinHeap.curSize) < timerMinHeap.heap.Length then multiset{endtime}
                           else multiset{}
      ensures old(Covered(Times(), timerMultiMap)) ==>
                (Covered(Times(), timerMultiMap) <==>
                  old(timerMinHeap.curSize) < timerMinHeap.heap.Length
                  || old(Times()[endtime] > Count(timerMultiMap, endtime)))
    {
      var _ := timerMinHeap.Insert(endtime);
      InsertKeeps(timerMultiMap, Entry(endtime, handler));
      timerMultiMap := InsertEntry(timerMultiMap, Entry(endtime, handler));
    }

    /** Erases one entry of the multimap. */
    method Erase(k: nat)
      requires Valid() && k < |timerMultiMap|
      modifies this`timerMultiMap
      ensures Valid() && (old(Covered(Times(), timerMultiMap)) ==> Covered(Times(), timerMultiMap))
      ensures timerMultiMap == old(timerMultiMap)[..k] + old(timerMultiMap)[k + 1..]
    {
      RemoveKeeps(timerMultiMap, k);
      timerMultiMap := timerMultiMap[..k] + timerMultiMap[k + 1..];
    }

    /** DelTimerEventHandler: erases the first entry of this handler at this
        time, and leaves the heap alone. */
    method DelTimerEventHandler(endtime: Time, handler: Handler)
      requires Valid()
      modifies this
      ensures Valid() && (old(Covered(Times(), timerMultiMap)) ==> Covered(Times(), timerMultiMap))
      ensures Entry(endtime, handler) !in old(timerMultiMap) ==> timerMultiMap == old(timerMultiMap)
      ensures Entry(endtime, handler) in old(timerMultiMap) ==>
                exists k :: 0 <= k < |old(timerMultiMap)| && old(timerMultiMap)[k] == Entry(endtime, handler)
                            && Entry(endtime, handler) !in old(timerMultiMap)[..k]
                            && timerMultiMap == old(timerMultiMap)[..k] + old(timerMultiMap)[k + 1..]
    {
      hide Keep, Drop, Covered, Count;
      var beg, end := LowerBound(timerMultiMap, endtime), UpperBound(timerMultiMap, endtime);
      BoundsSplit(timerMultiMap, endtime);
      ghost var m := timerMultiMap;
      while beg != end
        invariant LowerBound(m, endtime) <= beg <= end && timerMultiMap == m
        invariant forall i :: 0 <= i < beg ==> m[i] != Entry(endtime, handler)
        decreases end - beg
      {
        if timerMultiMap[beg].handler == handler {
          assert m[beg] == Entry(endtime, handler);
          Erase(beg);
          return;
        }
        beg := beg + 1;
      }
    }

    /** The inner loop of ScanTimer: fires and erases every entry at this time. */
    method FireAt(minTime: Time) returns (fired: seq<Entry>)
      requires Valid()
      modifies this`timerMultiMap
      ensures Valid()
      ensures fired == Keep(old(timerMultiMap), {minTime})
      ensures timerMultiMap == Drop(old(timerMultiMap), {minTime})
    {
      ghost var a, b, c := Parts(timerMultiMap, minTime);
      var beg := LowerBound(timerMultiMap, minTime);
      fired := FireRange(beg, minTime, a, b, c);
    }

    method FireRange(beg: nat, minTime: Time, ghost a: seq<Entry>, ghost todo: seq<Entry>, ghost c: seq<Entry>)
      returns (fired: seq<Entry>)
      requires timerMultiMap == a + todo + c && beg == |a|
      requires UpperBound(timerMultiMap, minTime) == |a| + |todo|
      modifies this`timerMultiMap
      ensures fired == todo && timerMultiMap == a + c
    {
      ghost var left := todo;
      fired := [];
      while beg != UpperBound(timerMultiMap, minTime)
        invariant timerMultiMap == a + left + c && fired + left == todo
        invariant UpperBound(timerMultiMap, minTime) == |a| + |left|
        decreases |left|
      {
        Peel(a, left, c, minTime, fired);
        fired := fired + [timerMultiMap[beg]];
        timerMultiMap := timerMultiMap[..beg] + timerMultiMap[beg + 1..];
        left := left[1..];
      }
      assert left == [] && a + left == a && fired + left == fired;
    }

    /** ScanTimer, with callbacks that leave the timers alone; clock(i) is the i-th
        reading of the clock, and the last one made is clock(last). Whatever the heap,
        the multimap and the readings: popped are the least times of the heap, each of
        them due when it was compared, and what is left of the heap is later than the
        last reading; exactly the entries of those times are fired, in order of time,
        and erased. */
    method ScanTimer(clock: nat -> Time) returns (fired: seq<Entry>, ghost popped: set<Time>, ghost last: nat)
      requires Valid()
      modifies this, timerMinHeap, timerMinHeap.heap
      ensures Valid() && timerMinHeap.curSize <= old(timerMinHeap.curSize)
      ensures Popped(old(Times()), Times(), popped)
      ensures DueWhenRead(popped, clock, last)
      ensures Times() != multiset{} ==> forall t :: t in Times() ==> !Leq(t, clock(last))
      ensures fired == Keep(old(timerMultiMap), popped) && timerMultiMap == Drop(old(timerMultiMap), popped)
      ensures (forall i :: 0 <= clock(i).usec < 1000000)
              && (forall t :: t in old(Times()) ==> 0 <= t.usec < 1000000) ==>
                && (forall e :: e in fired ==>
                      exists i :: 0 <= i <= last
                        && 1000000 * e.time.sec + e.time.usec <= 1000000 * clock(i).sec + clock(i).usec)
                && (forall t :: t in Times() ==>
                      1000000 * t.sec + t.usec > 1000000 * clock(last).sec + clock(last).usec)
    {
      hide Keep, Drop, Popped, DueWhenRead, Ordered;
      ghost var m, heap := timerMultiMap, Times();
      fired, popped, last := ScanRounds(clock);
      if (forall i :: 0 <= clock(i).usec < 1000000) && forall t :: t in heap ==> 0 <= t.usec < 1000000 {
        NothingEarly(m, heap, Times(), popped, clock, last);
      }
    }

    /** The loop of ScanTimer. */
    method ScanRounds(clock: nat -> Time) returns (fired: seq<Entry>, ghost popped: set<Time>, ghost last: nat)
      requires Valid()
      modifies this, timerMinHeap, timerMinHeap.heap
      ensures Valid() && timerMinHeap.curSize <= old(timerMinHeap.curSize)
      ensures Popped(old(Times()), Times(), popped)
      ensures DueWhenRead(popped, clock, last)
      ensures Times() != multiset{} ==> forall t :: t in Times() ==> !Leq(t, clock(last))
      ensures fired == Keep(old(timerMultiMap), popped) && timerMultiMap == Drop(old(timerMultiMap), popped)
    {
      hide Keep, Drop, LowerBound, UpperBound, Popped, DueWhenRead;
      ghost var m, heap := timerMultiMap, Times();
      fired, popped, last := [], {}, 0;
      var round := 0;
      KeepNothing(m);
      NothingPopped(heap, clock);
      while timerMinHeap.curSize != 0
        invariant Valid() && timerMinHeap.curSize <= old(timerMinHeap.curSize)
        invariant Popped(heap, Times(), popped) && last == (if round == 0 then 0 else round - 1)
        invariant DueWhenRead(popped, clock, last)
        invariant fired == Keep(m, popped) && timerMultiMap == Drop(m, popped)
        decreases timerMinHeap.curSize
      {
        ghost var before := timerMinHeap.Elements();
        var minTime := timerMinHeap.GetMin();
        assert forall t :: t in multiset(before) ==> t in before;
        DueNow(popped, clock, last, minTime, round);
        last := round;
        if !Leq(minTime, clock(round)) {
          NothingElseDue(multiset(before), minTime, clock(round));
          break;
        }
        round := round + 1;
        var _ := timerMinHeap.RemoveMin();
        PopOne(heap, multiset(before), Times(), popped, minTime);
        KeepMore(m, popped, minTime);
        var more := FireAt(minTime);
        fired := fired + more;
        popped := popped + {minTime};
      }
      assert timerMinHeap.curSize == 0 ==> timerMinHeap.Elements() == [];
    }
  }

  /** What a scan fires is not early, and what it leaves in the heap is not late, in microseconds. */
  lemma NothingEarly(m: seq<Entry>, heap: multiset<Time>, left: multiset<Time>, popped: set<Time>,
                     clock: nat -> Time, last: nat)
    requires Popped(heap, left, popped) && DueWhenRead(popped, clock, last)
    requires left != multiset{} ==> forall t :: t in left ==> !Leq(t, clock(last))
    requires (forall i :: 0 <= clock(i).usec < 1000000) && forall t :: t in heap ==> 0 <= t.usec < 1000000
    ensures forall e :: e in Keep(m, popped) ==>
              exists i :: 0 <= i <= last
                && 1000000 * e.time.sec + e.time.usec <= 1000000 * clock(i).sec + clock(i).usec
    ensures forall t :: t in left ==> 1000000 * t.sec + t.usec > 1000000 * clock(last).sec + clock(last).usec
  {
    KeepMembers(m, popped);
    hide Keep;
    forall e | e in Keep(m, popped)
      ensures exists i :: 0 <= i <= last
                && 1000000 * e.time.sec + e.time.usec <= 1000000 * clock(i).sec + clock(i).usec
    {
      var i :| 0 <= i <= last && Leq(e.time, clock(i));
      LeqIsInTime(e.time, clock(i));
    }
    forall t | t in left ensures 1000000 * t.sec + t.usec > 1000000 * clock(last).sec + clock(last).usec {
      assert left[t] <= heap[t] && left != multiset{};
      LeqIsInTime(t, clock(last));
    }
  }

  lemma NothingElseDue(heap: multiset<Time>, least: Time, now: Time)
    requires !Leq(least, now) && forall u :: u in heap ==> Leq(least, u)
    ensures forall u :: u in heap ==> !Leq(u, now)
  {
  }

  /** A clock that does not go back. */
  ghost predicate Forward(clock: nat -> Time) {
    forall i, j :: 0 <= i <= j ==> Leq(clock(i), clock(j))
  }

  /** While the clock goes forward, a scan is a scan at its last reading: it pops
      exactly the times that are due then. */
  lemma ScanIsAtLast(heap: multiset<Time>, left: multiset<Time>, popped: set<Time>, clock: nat -> Time, last: nat)
    requires Forward(clock) && Popped(heap, left, popped)
    requires DueWhenRead(popped, clock, last)
    requires left != multiset{} ==> forall t :: t in left ==> !Leq(t, clock(last))
    ensures popped == DueTimes(heap, clock(last))
    ensures forall t :: left[t] == if Leq(t, clock(last)) then 0 else heap[t]
  {
    var now := clock(last);
    forall t | t in popped ensures Leq(t, now) {
      var i :| 0 <= i <= last && Leq(t, clock(i));
      assert Leq(clock(i), clock(last));
    }
    assert forall t :: t in left ==> left != multiset{};
    forall t ensures left[t] == if Leq(t, now) then 0 else heap[t] {
      if Leq(t, now) {
        assert t !in left;
      } else {
        assert t !in popped;
      }
    }
  }

  /** The times in the heap that have come. */
  ghost function DueTimes(heap: multiset<Time>, now: Time): set<Time> {
    set t | t in heap && Leq(t, now)
  }

  /** What is left of a heap when the times in popped have been taken out, least first. */
  ghost predicate Popped(heap: multiset<Time>, left: multiset<Time>, popped: set<Time>) {
    && (forall t :: t in popped ==> t in heap)
    && (forall t :: left[t] <= heap[t])
    && (forall t :: t !in popped ==> left[t] == heap[t])
    && (forall t, u :: t in popped && u in left ==> Leq(t, u))
  }

  /** Each of these times was due at one of the readings up to the last. */
  ghost predicate DueWhenRead(popped: set<Time>, clock: nat -> Time, last: nat) {
    forall t :: t in popped ==> exists i :: 0 <= i <= last && Leq(t, clock(i))
  }

  lemma DueNow(popped: set<Time>, clock: nat -> Time, last: nat, t: Time, round: nat)
    requires DueWhenRead(popped, clock, last) && last <= round
    ensures DueWhenRead(popped, clock, round)
    ensures Leq(t, clock(round)) ==> DueWhenRead(popped + {t}, clock, round)
  {
  }

  lemma NothingPopped(heap: multiset<Time>, clock: nat -> Time)
    ensures Popped(heap, heap, {}) && DueWhenRead({}, clock, 0)
  {
  }

  lemma PopOne(heap: multiset<Time>, before: multiset<Time>, after: multiset<Time>, popped: set<Time>, t: Time)
    requires Popped(heap, before, popped) && before == after + multiset{t}
    requires forall u :: u in before ==> Leq(t, u)
    ensures Popped(heap, after, popped + {t})
    ensures forall u :: u in popped ==> Leq(u, t)
  {
    assert t in before && heap[t] >= before[t];
    assert forall u :: u in after ==> u in before;
  }

  lemma {:induction false} KeepNothing(m: seq<Entry>)
    ensures Keep(m, {}) == [] && Drop(m, {}) == m
  {
    if m != [] {
      KeepNothing(m[..|m| - 1]);
    }
  }

  /** When the heap covers the multimap, a scan is a scan of the multimap alone:
      it fires every entry due at now, in order, and leaves exactly the later
      ones; stale times in the heap make no difference. */
  lemma ScanIsMapScan(heap: multiset<Time>, m: seq<Entry>, now: Time)
    requires Ordered(m) && Covered(heap, m)
    ensures Keep(m, DueTimes(heap, now)) == m[..UpperBound(m, now)]
    ensures Drop(m, DueTimes(heap, now)) == m[UpperBound(m, now)..]
  {
    forall i | 0 <= i < UpperBound(m, now) ensures m[i].time in heap {
      CountMembers(m, m[i].time);
      assert m[i] in m && heap[m[i].time] >= Count(m, m[i].time);
    }
    KeepPrefix(m, UpperBound(m, now), DueTimes(heap, now));
  }

  /** And only then: a scan fires all that is due exactly when every due time of
      the multimap is in the heap. */
  lemma ScanFiresAllDue(heap: multiset<Time>, m: seq<Entry>, now: Time)
    requires Ordered(m)
    ensures Keep(m, DueTimes(heap, now)) == m[..UpperBound(m, now)]
            <==> forall i :: 0 <= i < UpperBound(m, now) ==> m[i].time in heap
  {
    var k, due := UpperBound(m, now), DueTimes(heap, now);
    if forall i :: 0 <= i < k ==> m[i].time in heap {
      KeepPrefix(m, k, due);
    }
    if Keep(m, due) == m[..k] {
      forall i | 0 <= i < k ensures m[i].time in heap {
        KeepMembers(m, due);
        assert m[..k][i] in m[..k];
      }
    }
  }

  lemma {:induction false} KeepMembers(m: seq<Entry>, ts: set<Time>)
    ensures forall e :: e in Keep(m, ts) ==> e.time in ts
  {
    if m != [] {
      KeepMembers(m[..|m| - 1], ts);
    }
  }

  lemma {:induction false} KeepPrefix(m: seq<Entry>, k: nat, ts: set<Time>)
    requires k <= |m| && forall i :: 0 <= i < |m| ==> (m[i].time in ts <==> i < k)
    ensures Keep(m, ts) == m[..k] && Drop(m, ts) == m[k..]
  {
    if m != [] {
      var init, last := m[..|m| - 1], m[|m| - 1];
      assert m == init + [last];
      KeepPrefix(init, if k == |m| then k - 1 else k, ts);
      Last(init, last, ts);
      if k == |m| {
        assert m[..k] == init[..k - 1] + [last] && m[k..] == [] == init[k - 1..];
      } else {
        assert m[..k] == init[..k] && m[k..] == init[k..] + [last];
      }
    }
  }

  /** Erasing the first of the entries still to fire. */
  lemma Peel(a: seq<Entry>, todo: seq<Entry>, c: seq<Entry>, t: Time, fired: seq<Entry>)
    requires todo != [] && UpperBound(a + todo + c, t) == |a| + |todo|
    ensures var r := a + todo + c;
            && r[|a|] == todo[0] && r[..|a|] + r[|a| + 1..] == a + todo[1..] + c
    ensures UpperBound(a + todo[1..] + c, t) == |a| + |todo| - 1
    ensures fired + todo == (fired + [todo[0]]) + todo[1..]
  {
    var r, r' := a + todo + c, a + todo[1..] + c;
    var u, u' := |a| + |todo|, UpperBound(r', t);
    assert r[..|a|] + r[|a| + 1..] == r';
    assert forall i :: 0 <= i < |r'| ==> r'[i] == if i < |a| then r[i] else r[i + 1];
    assert forall i :: 0 <= i < u - 1 ==> Leq(r'[i].time, t);
    assert u - 1 < |r'| ==> !Leq(r'[u - 1].time, t);
  }

  /** What a scan leaves in the heap covers what it leaves in the multimap. */
  lemma ScanKeepsCover(heap: multiset<Time>, left: multiset<Time>, m: seq<Entry>, now: Time)
    requires Ordered(m) && Covered(heap, m)
    requires forall t :: left[t] == if Leq(t, now) then 0 else heap[t]
    ensures Covered(left, m[UpperBound(m, now)..])
  {
    forall t ensures left[t] >= Count(m[UpperBound(m, now)..], t) {
      if Leq(t, now) {
        NoneDueLeft(m, now, t);
      } else {
        CountRest(m, UpperBound(m, now), t);
      }
    }
  }

  lemma CountRest(m: seq<Entry>, k: nat, t: Time)
    requires k <= |m|
    ensures Count(m[k..], t) <= Count(m, t)
  {
    CountConcat(m[..k], m[k..], t);
    assert m == m[..k] + m[k..];
  }

  lemma NoneDueLeft(m: seq<Entry>, now: Time, t: Time)
    requires Ordered(m) && Leq(t, now)
    ensures Count(m[UpperBound(m, now)..], t) == 0
  {
    var k := UpperBound(m, now);
    forall i | k <= i < |m| ensures m[i].time != t {
      assert i > k ==> Leq(m[k].time, m[i].time);
    }
    CountMembers(m[k..], t);
  }

  /** erase of the first entry equal to e, on a plain multimap. */
  function EraseFirst(m: seq<Entry>, e: Entry): seq<Entry> {
    if m == [] then [] else if m[0] == e then m[1..] else [m[0]] + EraseFirst(m[1..], e)
  }

  lemma {:induction false} EraseFirstAt(m: seq<Entry>, e: Entry, k: nat)
    requires k < |m| && m[k] == e && e !in m[..k]
    ensures EraseFirst(m, e) == m[..k] + m[k + 1..]
  {
    if k > 0 {
      assert m[..k][0] == m[0] && m[..k][1..] == m[1..][..k - 1];
      EraseFirstAt(m[1..], e, k - 1);
      assert m[1..][k..] == m[k + 1..];
      assert [m[0]] + m[1..][..k - 1] == m[..k];
    }
  }

  lemma {:induction false} EraseNothing(m: seq<Entry>, e: Entry)
    requires e !in m
    ensures EraseFirst(m, e) == m
  {
    if m != [] {
      EraseNothing(m[1..], e);
    }
  }

  /** What a program does with its timers. */
  datatype TimerOp = Add(endtime: Time, handler: Handler) | Del(endtime: Time, handler: Handler) | Scan(now: Time)

  /** The same on a plain multimap, without any heap: a scan fires and erases
      every entry that is due, in order. */
  function MapAfter(m: seq<Entry>, op: TimerOp): seq<Entry> {
    match op
    case Add(t, h) => InsertEntry(m, Entry(t, h))
    case Del(t, h) => EraseFirst(m, Entry(t, h))
    case Scan(now) => m[UpperBound(m, now)..]
  }

  function MapFires(m: seq<Entry>, op: TimerOp): seq<Entry> {
    match op
    case Scan(now) => m[..UpperBound(m, now)]
    case _ => []
  }

  function MapAfterAll(m: seq<Entry>, ops: seq<TimerOp>): seq<Entry>
    decreases |ops|
  {
    if ops == [] then m else MapAfterAll(MapAfter(m, ops[0]), ops[1..])
  }

  function MapFiresAll(m: seq<Entry>, ops: seq<TimerOp>): seq<Entry>
    decreases |ops|
  {
    if ops == [] then [] else MapFires(m, ops[0]) + MapFiresAll(MapAfter(m, ops[0]), ops[1..])
  }

  /** What a scan at this time leaves of a heap. */
  ghost function Later(heap: multiset<Time>, now: Time): (left: multiset<Time>)
    ensures forall t :: left[t] == if Leq(t, now) then 0 else heap[t]
    decreases |heap|
  {
    if heap == multiset{} then multiset{}
    else
      var t :| t in heap;
      var left := Later(heap - multiset{t}, now);
      if Leq(t, now) then left else left + multiset{t}
  }

  /** The heap never refuses a time in the course of these operations: only an
      addition takes room, and a scan gives back the room of what it pops. */
  ghost predicate Fits(heap: multiset<Time>, capacity: nat, ops: seq<TimerOp>)
    decreases |ops|
  {
    ops == []
    || match ops[0]
       case Add(t, _) => |heap| < capacity && Fits(heap + multiset{t}, capacity, ops[1..])
       case Del(_, _) => Fits(heap, capacity, ops[1..])
       case Scan(now) => Fits(Later(heap, now), capacity, ops[1..])
  }

  /** One operation, with room in the heap for an addition: as on the plain
      multimap, and the heap goes on covering it. */
  method Perform(timers: EventHandlerSet, op: TimerOp) returns (fired: seq<Entry>)
    requires timers.Valid() && Covered(timers.Times(), timers.timerMultiMap)
    requires op.Add? ==> timers.timerMinHeap.curSize < timers.timerMinHeap.heap.Length
    modifies timers, timers.timerMinHeap, timers.timerMinHeap.heap
    ensures timers.Valid() && Covered(timers.Times(), timers.timerMultiMap)
    ensures timers.Times() == match op
                              case Add(t, _) => old(timers.Times()) + multiset{t}
                              case Del(_, _) => old(timers.Times())
                              case Scan(now) => Later(old(timers.Times()), now)
    ensures timers.timerMultiMap == MapAfter(old(timers.timerMultiMap), op)
    ensures fired == MapFires(old(timers.timerMultiMap), op)
  {
    ghost var m, heap := timers.timerMultiMap, timers.Times();
    fired := [];
    match op
    case Add(t, h) => timers.AddTimerEventHandler(t, h);
    case Del(t, h) =>
      timers.DelTimerEventHandler(t, h);
      ErasedFirst(m, Entry(t, h), timers.timerMultiMap);
    case Scan(now) => fired := PerformScan(timers, now);
  }

  /** A scan of timers that the heap covers: what fires is the front of the multimap, and
      in microseconds exactly what the clock has reached. */
  method PerformScan(timers: EventHandlerSet, now: Time) returns (fired: seq<Entry>)
    requires timers.Valid() && Covered(timers.Times(), timers.timerMultiMap)
    modifies timers, timers.timerMinHeap, timers.timerMinHeap.heap
    ensures timers.Valid() && Covered(timers.Times(), timers.timerMultiMap)
    ensures timers.Times() == Later(old(timers.Times()), now)
    ensures timers.timerMultiMap == old(timers.timerMultiMap)[UpperBound(old(timers.timerMultiMap), now)..]
    ensures fired == old(timers.timerMultiMap)[..UpperBound(old(timers.timerMultiMap), now)]
    ensures 0 <= now.usec < 1000000 && (forall e :: e in old(timers.timerMultiMap) ==> 0 <= e.time.usec < 1000000) ==>
              && (forall e :: e in fired ==>
                    1000000 * e.time.sec + e.time.usec <= 1000000 * now.sec + now.usec)
              && (forall e :: e in timers.timerMultiMap ==>
                    1000000 * e.time.sec + e.time.usec > 1000000 * now.sec + now.usec)
  {
    if 0 <= now.usec < 1000000 && forall e :: e in timers.timerMultiMap ==> 0 <= e.time.usec < 1000000 {
      ScanInTime(timers.timerMultiMap, now);
    }
    hide Ordered, UpperBound, Leq, Covered;
    fired := ScanCovered(timers, now);
  }

  method ScanCovered(timers: EventHandlerSet, now: Time) returns (fired: seq<Entry>)
    requires timers.Valid() && Covered(timers.Times(), timers.timerMultiMap)
    modifies timers, timers.timerMinHeap, timers.timerMinHeap.heap
    ensures timers.Valid() && Covered(timers.Times(), timers.timerMultiMap)
    ensures timers.Times() == Later(old(timers.Times()), now)
    ensures timers.timerMultiMap == old(timers.timerMultiMap)[UpperBound(old(timers.timerMultiMap), now)..]
    ensures fired == old(timers.timerMultiMap)[..UpperBound(old(timers.timerMultiMap), now)]
  {
    hide Popped, Keep, Drop, Covered;
    ghost var m, heap := timers.timerMultiMap, timers.Times();
    ScanIsMapScan(heap, m, now);
    ghost var popped, last;
    fired, popped, last := timers.ScanTimer(_ => now);
    ScanIsAtLast(heap, timers.Times(), popped, _ => now, last);
    ScanKeepsCover(heap, timers.Times(), m, now);
    assert forall t :: timers.Times()[t] == Later(heap, now)[t];
  }

  lemma ErasedFirst(m: seq<Entry>, e: Entry, after: seq<Entry>)
    requires e !in m ==> after == m
    requires e in m ==> exists k :: 0 <= k < |m| && m[k] == e && e !in m[..k] && after == m[..k] + m[k + 1..]
    ensures after == EraseFirst(m, e)
  {
    if e in m {
      var k :| 0 <= k < |m| && m[k] == e && e !in m[..k] && after == m[..k] + m[k + 1..];
      EraseFirstAt(m, e, k);
    } else {
      EraseNothing(m, e);
    }
  }

  /** Whole runs in which the heap never fills: any sequence of additions, deletions
      and scans fires what a plain multimap would fire, in the same order, and leaves
      what it would leave. */
  method Run(timers: EventHandlerSet, ops: seq<TimerOp>) returns (fired: seq<Entry>)
    requires timers.Valid() && Covered(timers.Times(), timers.timerMultiMap)
    requires Fits(timers.Times(), timers.timerMinHeap.heap.Length, ops)
    modifies timers, timers.timerMinHeap, timers.timerMinHeap.heap
    ensures timers.Valid() && Covered(timers.Times(), timers.timerMultiMap)
    ensures timers.timerMultiMap == MapAfterAll(old(timers.timerMultiMap), ops)
    ensures fired == MapFiresAll(old(timers.timerMultiMap), ops)
    decreases |ops|
  {
    hide Covered;
    if ops == [] {
      return [];
    }
    fired := Perform(timers, ops[0]);
    var more := Run(timers, ops[1..]);
    fired := fired + more;
  }

  /** A timer that the heap refuses is never fired. With room for one time, the second
      of two timers is refused; both are due at 3 s, the scan fires the first, and no
      scan after that fires the other. */
  method SomeTimerIsLost(later: Time) returns (timers: EventHandlerSet, fired: seq<Entry>, never: seq<Entry>)
    ensures fresh(timers) && timers.Valid()
    ensures timers.timerMultiMap == [Entry(Time(2, 0), 8)]
    ensures fired == [Entry(Time(1, 0), 7)] && never == []
  {
    hide Keep, Drop, Popped, DueWhenRead, Ordered, IsHeap, MinHeap.Shape, EventHandlerSet.Times;
    timers := OneRefused();
    TwoEntries();
    ghost var popped, last;
    fired, popped, last := timers.ScanTimer(_ => Time(3, 0));
    OnlyOneIsDue(timers.Times(), popped, last);
    never, popped, last := timers.ScanTimer(_ => later);
    NothingToPop(timers.Times(), popped);
    KeepNothing([Entry(Time(2, 0), 8)]);
  }

  method OneRefused() returns (timers: EventHandlerSet)
    ensures fresh(timers) && fresh(timers.timerMinHeap) && fresh(timers.timerMinHeap.heap) && timers.Valid()
    ensures timers.Times() == multiset{Time(1, 0)}
    ensures timers.timerMultiMap == [Entry(Time(1, 0), 7), Entry(Time(2, 0), 8)]
  {
    hide InsertEntry, Covered;
    timers := new EventHandlerSet(1);
    timers.AddTimerEventHandler(Time(1, 0), 7);
    timers.AddTimerEventHandler(Time(2, 0), 8);
    TwoEntries();
  }

  lemma OnlyOneIsDue(left: multiset<Time>, popped: set<Time>, last: nat)
    requires Popped(multiset{Time(1, 0)}, left, popped)
    requires DueWhenRead(popped, _ => Time(3, 0), last)
    requires left != multiset{} ==> forall t :: t in left ==> !Leq(t, Time(3, 0))
    ensures popped == {Time(1, 0)} && left == multiset{}
  {
    ScanIsAtLast(multiset{Time(1, 0)}, left, popped, _ => Time(3, 0), last);
    assert forall t :: t !in left;
  }

  lemma NothingToPop(left: multiset<Time>, popped: set<Time>)
    requires Popped(multiset{}, left, popped)
    ensures popped == {}
  {
    assert forall t :: t !in popped;
  }

  lemma TwoEntries()
    ensures var a, b := Entry(Time(1, 0), 7), Entry(Time(2, 0), 8);
            && InsertEntry(InsertEntry([], a), b) == [a, b]
            && Keep([a, b], {Time(1, 0)}) == [a] && Drop([a, b], {Time(1, 0)}) == [b]
  {
    var a, b := Entry(Time(1, 0), 7), Entry(Time(2, 0), 8);
    assert [a, b] == [a] + [b] && [] + [a] == [a];
    Last([], a, {Time(1, 0)});
    Last([a], b, {Time(1, 0)});
    assert InsertEntry([], a) == [a];
    assert UpperBound([a], Time(2, 0)) == 1;
  }
}
