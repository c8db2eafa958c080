/** The timer half of the event loop as the source has it: a singly linked
    list, changed in place (Clang/aio/ae/ae.c). */
module AeTimers {
  import opened AeTimerSpec

  class TimeEvent {
    const id: int
    var whenSec: int
    var whenMs: int
    var next: TimeEvent?

    constructor (id: int, at: Clock, next: TimeEvent?)
      ensures this.id == id && whenSec == at.sec && whenMs == at.ms && this.next == next
    {
      this.id := id;
      whenSec, whenMs := at.sec, at.ms;
      this.next := next;
    }

    function Value(): Timer
      reads this`whenSec, this`whenMs
    {
      Timer(id, whenSec, whenMs)
    }
  }

  /** The flags of aeProcessEvents. */
  datatype Flags = Flags(fileEvents: bool, timeEvents: bool, dontWait: bool)

  /** How long aeProcessEvents lets the poll sleep. */
  datatype Wait = NoPoll | Forever | For(sec: int, usec: int)

  class TimeEvents {
    var head: TimeEvent?
    var nextId: int
    var lastTime: int
    /** The nodes of the list, from the head, the timers they stand for, and
        every node there has been. */
    ghost var nodes: seq<TimeEvent>
    ghost var timers: seq<Timer>
    ghost var footprint: set<TimeEvent>

    ghost function Now(): State
      reads this
    {
      State(timers, nextId)
    }

    ghost predicate Linked()
      reads this, footprint
    {
      && head == (if nodes == [] then null else nodes[0])
      && (forall i :: 0 <= i < |nodes| ==> nodes[i] in footprint)
      && (forall i {:trigger nodes[i].next} :: 0 <= i < |nodes| ==>
            nodes[i].next == if i + 1 < |nodes| then nodes[i + 1] else null)
    }

    ghost predicate Shown()
      reads this, footprint
    {
      && |timers| == |nodes|
      && (forall i :: 0 <= i < |nodes| ==> nodes[i] in footprint && nodes[i].Value() == timers[i])
    }

    /** The list is well linked, and its identifiers strictly decrease. */
    ghost predicate Valid()
      reads this, footprint
    {
      Linked() && Shown() && Ordered(Now())
    }

    constructor (time: int)
      ensures Valid() && Now() == State([], 0) && lastTime == time && footprint == {}
    {
      head := null;
      nextId := 0;
      lastTime := time;
      nodes, timers, footprint := [], [], {};
    }

    /** aeCreateTimeEvent */
    method CreateTimeEvent(milliseconds: int, now: Clock) returns (id: int)
      requires Valid()
      modifies this
      ensures Valid() && Now() == Apply(old(Now()), now, AddTimer(milliseconds))
      ensures id == old(nextId) && lastTime == old(lastTime)
      ensures GoodClock(now) ==>
                timers != [] && timers[0].id == id
                && 1000 * timers[0].sec + timers[0].ms == 1000 * now.sec + now.ms + milliseconds
      ensures footprint == old(footprint) + {nodes[0]} && fresh(nodes[0])
      ensures nodes[1..] == old(nodes)
    {
      AddedInFront(Now(), now, milliseconds);
      hide Ordered, Apply, AddMilliseconds, TimeEvents.Linked, TimeEvents.Shown;
      id := nextId;
      nextId := nextId + 1;
      var te := new TimeEvent(id, AddMilliseconds(now, milliseconds), head);
      Push(te);
    }

    /** Makes a node the head of the list. */
    method Push(te: TimeEvent)
      requires Linked() && Shown() && te !in footprint && te.next == head
      modifies this`head, this`nodes, this`timers, this`footprint
      ensures Linked() && Shown()
      ensures nodes == [te] + old(nodes) && timers == [te.Value()] + old(timers) && footprint == old(footprint) + {te}
    {
      head := te;
      nodes, timers, footprint := [te] + nodes, [te.Value()] + timers, footprint + {te};
      assert forall i :: 1 <= i < |nodes| ==> nodes[i] == old(nodes)[i - 1] && timers[i] == old(timers)[i - 1];
    }

    /** Takes node k out of the list; prev is the node before it. */
    method Unlink(prev: TimeEvent?, te: TimeEvent, ghost k: nat)
      requires Valid() && k < |nodes| && te == nodes[k]
      requires prev == if k == 0 then null else nodes[k - 1]
      modifies this`head, this`nodes, this`timers, footprint`next
      ensures Linked() && Shown()
      ensures nodes == old(nodes)[..k] + old(nodes)[k + 1..]
      ensures timers == old(timers)[..k] + old(timers)[k + 1..]
    {
      ghost var before, ts := nodes, timers;
      hide Ordered;
      assert Linked() && Shown();
      Bypass(prev, te, k);
      WithoutLinked(before, k);
      WithoutShown(before, ts, footprint, k);
      Forget(k);
    }

    ghost method Forget(k: nat)
      requires k < |nodes| == |timers|
      modifies this`nodes, this`timers
      ensures nodes == old(nodes)[..k] + old(nodes)[k + 1..]
      ensures timers == old(timers)[..k] + old(timers)[k + 1..]
    {
      nodes, timers := nodes[..k] + nodes[k + 1..], timers[..k] + timers[k + 1..];
    }

    /** The assignment that takes node k out. */
    method Bypass(prev: TimeEvent?, te: TimeEvent, ghost k: nat)
      requires Valid() && k < |nodes| && te == nodes[k]
      requires prev == if k == 0 then null else nodes[k - 1]
      modifies this`head, footprint`next
      ensures head == if k == 0 then te.next else old(head)
      ensures forall i :: 0 <= i < |nodes| ==> nodes[i].next == if i == k - 1 then te.next else old(nodes[i].next)
    {
      assert forall i :: 0 <= i < |nodes| ==> nodes[i].id == timers[i].id;
      assert forall i :: 0 <= i < |nodes| && i != k - 1 ==> nodes[i] != prev;
      if prev == null {
        head := te.next;
      } else {
        prev.next := te.next;
      }
    }

    /** Where the node with this identifier is, with the node before it. */
    method Find(id: int) returns (prev: TimeEvent?, te: TimeEvent?, ghost k: nat)
      requires Valid()
      ensures te == null ==> forall i :: 0 <= i < |timers| ==> timers[i].id != id
      ensures te != null ==> k < |nodes| && te == nodes[k] && timers[k].id == id
                             && prev == if k == 0 then null else nodes[k - 1]
    {
      prev, te, k := null, head, 0;
      while te != null && te.id != id
        invariant 0 <= k <= |nodes|
        invariant te == if k < |nodes| then nodes[k] else null
        invariant prev == if k == 0 then null else nodes[k - 1]
        invariant forall i :: 0 <= i < k ==> timers[i].id != id
        decreases |nodes| - k
      {
        assert te == nodes[k];
        prev := te;
        te := te.next;
        k := k + 1;
      }
    }

    /** aeDeleteTimeEvent: unlinks the node with this identifier, if there is one. */
    method DeleteTimeEvent(id: int) returns (found: bool)
      requires Valid()
      modifies this`head, this`nodes, this`timers, footprint
      ensures Valid() && timers == Remove(old(timers), id)
      ensures found <==> exists t :: t in old(timers) && t.id == id
      ensures forall x :: x in old(nodes) && x.id != id ==> x in nodes
    {
      var prev, te, k := Find(id);
      if te == null {
        RemoveAbsent(timers, id);
        return false;
      }
      RemoveAt(timers, k, nextId);
      RemoveOrdered(timers, id, nextId);
      MembersAfter(nodes, k);
      assert timers[k] in timers;
      Unlink(prev, te, k);
      return true;
    }

    /** aeSearchNearestTimer: a node that no other comes before. */
    method SearchNearestTimer() returns (nearest: TimeEvent?)
      requires Valid()
      ensures nearest == null <==> timers == []
      ensures nearest != null ==> nearest.Value() in timers
                                  && forall t :: t in timers ==> !Before(t, nearest.Value())
    {
      var te := head;
      nearest := null;
      ghost var k := 0;
      while te != null
        invariant 0 <= k <= |nodes|
        invariant te == if k < |nodes| then nodes[k] else null
        invariant nearest == null <==> k == 0
        invariant nearest != null ==> nearest.Value() in timers
                                      && forall i :: 0 <= i < k ==> !Before(timers[i], nearest.Value())
        decreases |nodes| - k
      {
        assert te == nodes[k];
        if nearest == null || te.whenSec < nearest.whenSec
           || (te.whenSec == nearest.whenSec && te.whenMs < nearest.whenMs) {
          nearest := te;
        }
        te := te.next;
        k := k + 1;
      }
    }

    /** The sleep time aeProcessEvents computes before it polls. */
    method WaitTime(flags: Flags, maxfd: int, now: Clock) returns (w: Wait)
      requires Valid() && GoodClock(now)
      ensures w == NoPoll <==> (!flags.fileEvents && !flags.timeEvents)
                               || (maxfd == -1 && (!flags.timeEvents || flags.dontWait))
      ensures w == Forever <==> w != NoPoll && !flags.dontWait && (!flags.timeEvents || timers == [])
      ensures w.For? && flags.dontWait ==> w == For(0, 0)
      ensures w.For? && !flags.dontWait ==>
                exists t :: t in timers && (forall u :: u in timers ==> !Before(u, t)) && WaitsFor(w, t, now)
                            && (Normal(Now()) ==>
                                  (forall u :: u in timers ==> When(t) <= When(u)) && WaitsExactly(w, t, now))
    {
      if !flags.timeEvents && !flags.fileEvents {
        return NoPoll;
      }
      if maxfd == -1 && !(flags.timeEvents && !flags.dontWait) {
        return NoPoll;
      }
      var shortest: TimeEvent? := null;
      if flags.timeEvents && !flags.dontWait {
        shortest := SearchNearestTimer();
      }
      if shortest == null {
        return if flags.dontWait then For(0, 0) else Forever;
      }
      var sec := shortest.whenSec - now.sec;
      var usec;
      if shortest.whenMs < now.ms {
        usec := ((shortest.whenMs + 1000) - now.ms) * 1000;
        sec := sec - 1;
      } else {
        usec := (shortest.whenMs - now.ms) * 1000;
      }
      if sec < 0 {
        sec := 0;
      }
      if usec < 0 {
        usec := 0;
      }
      w := For(sec, usec);
      NearestIsEarliest(timers, shortest.Value());
    }

    method Perform(op: TimerOp, now: Clock)
      requires Valid()
      modifies this, footprint
      ensures Valid() && Now() == Apply(old(Now()), now, op)
      ensures lastTime == old(lastTime) && fresh(footprint - old(footprint))
      ensures forall x :: x in old(nodes) && op != DelTimer(x.id) ==> x in nodes
    {
      hide Ordered, TimeEvents.Linked;
      match op
      case AddTimer(ms) =>
        var _ := CreateTimeEvent(ms, now);
        assert nodes == [nodes[0]] + old(nodes);
      case DelTimer(id) =>
        var _ := DeleteTimeEvent(id);
    }

    /** The timer operations of one callback. */
    method PerformAll(ops: seq<TimerOp>, now: Clock)
      requires Valid()
      modifies this, footprint
      ensures Valid() && Now() == ApplyAll(old(Now()), now, ops)
      ensures lastTime == old(lastTime) && fresh(footprint - old(footprint))
      ensures forall x :: x in old(nodes) && DelTimer(x.id) !in ops ==> x in nodes
    {
      var i := 0;
      assert ops[..0] == [];
      while i < |ops|
        invariant 0 <= i <= |ops| && Valid()
        invariant Now() == ApplyAll(old(Now()), now, ops[..i])
        invariant lastTime == old(lastTime) && fresh(footprint - old(footprint))
        invariant forall x :: x in old(nodes) && DelTimer(x.id) !in ops[..i] ==> x in nodes
      {
        assert ops[..i + 1][..i] == ops[..i];
        assert ops[..i + 1] == ops[..i] + [ops[i]];
        Perform(ops[i], now);
        i := i + 1;
      }
      assert ops[..|ops|] == ops;
    }

    /** Writes the time of node k. */
    method Write(te: TimeEvent, at: Clock, ghost k: nat)
      requires Valid() && k < |nodes| && te == nodes[k]
      modifies te`whenSec, te`whenMs, this`timers
      ensures Valid() && timers == old(timers)[k := Timer(te.id, at.sec, at.ms)]
    {
      assert forall i :: 0 <= i < |nodes| ==> nodes[i].id == timers[i].id;
      te.whenSec, te.whenMs := at.sec, at.ms;
      timers := timers[k := te.Value()];
    }

    /** The clock-skew branch of processTimeEvents. */
    method ResetTimes()
      requires Valid()
      modifies this`timers, footprint
      ensures Valid() && Ordered(old(Now())) && Now() == Skewed(old(Now()))
    {
      var te := head;
      assert te == (if nodes == [] then null else nodes[0]) && |timers| == |nodes|;
      hide Ordered, Skewed, TimeEvents.Linked, TimeEvents.Shown;
      ghost var k, before := 0, timers;
      while te != null
        invariant Valid() && 0 <= k <= |nodes|
        invariant te == if k < |nodes| then nodes[k] else null
        invariant |timers| == |before| == |nodes|
        invariant forall i :: 0 <= i < k ==> timers[i] == before[i].(sec := 0)
        invariant forall i :: k <= i < |nodes| ==> timers[i] == before[i]
        decreases |nodes| - k
      {
        te := ResetTime(te, k);
        k := k + 1;
      }
      SkewedIs(before, timers, nextId);
    }

    method ResetTime(te: TimeEvent, ghost k: nat) returns (next: TimeEvent?)
      requires Valid() && k < |nodes| && te == nodes[k]
      modifies te`whenSec, te`whenMs, this`timers
      ensures Valid() && timers == old(timers)[k := old(timers)[k].(sec := 0)]
      ensures next == if k + 1 < |nodes| then nodes[k + 1] else null
    {
      hide Ordered;
      Write(te, Clock(0, te.whenMs), k);
      next := te.next;
    }

    /** What processTimeEvents does before the pass: it looks for a clock that has gone
        back, and notes the time. */
    method CheckClock(time: int)
      requires Valid()
      modifies this`timers, this`lastTime, footprint
      ensures Valid() && lastTime == time && Ordered(old(Now()))
      ensures Now() == if time < old(lastTime) then Skewed(old(Now())) else old(Now())
    {
      if time < lastTime {
        ResetTimes();
      }
      lastTime := time;
    }

    /** What processTimeEvents does with a timer once its callback has returned: it puts
        the node off, or deletes the timer. */
    method Settle(te: TimeEvent, now: Clock, retval: int)
      requires Valid() && (retval != NOMORE ==> te in nodes)
      modifies this`head, this`nodes, this`timers, footprint
      ensures Valid() && footprint == old(footprint)
      ensures timers == if retval != NOMORE then Retime(old(timers), te.id, AddMilliseconds(now, retval))
                        else Remove(old(timers), te.id)
    {
      if retval != NOMORE {
        ghost var k :| 0 <= k < |nodes| && nodes[k] == te;
        RetimeAt(timers, k, AddMilliseconds(now, retval), nextId);
        Write(te, AddMilliseconds(now, retval), k);
      } else {
        var _ := DeleteTimeEvent(te.id);
      }
    }
  }

  lemma RetimeAt(ts: seq<Timer>, k: nat, at: Clock, n: int)
    requires k < |ts| && Ordered(State(ts, n))
    ensures ts[k := Timer(ts[k].id, at.sec, at.ms)] == Retime(ts, ts[k].id, at)
  {
  }

  lemma MembersAfter(s: seq<TimeEvent>, k: nat)
    requires k < |s|
    ensures forall x :: x in s && x != s[k] ==> x in s[..k] + s[k + 1..]
  {
    forall x | x in s && x != s[k] ensures x in s[..k] + s[k + 1..] {
      var i :| 0 <= i < |s| && s[i] == x;
      assert (s[..k] + s[k + 1..])[if i < k then i else i - 1] == x;
    }
  }

  /** The wait is not shorter than the time left. */
  predicate WaitsFor(w: Wait, t: Timer, now: Clock) {
    w.For? && 0 <= w.sec && 0 <= w.usec && 1000000 * w.sec + w.usec >= 1000 * (When(t) - Total(now))
  }

  /** It is exactly the time left, or less than a second when the timer is overdue. */
  predicate WaitsExactly(w: Wait, t: Timer, now: Clock) {
    && w.For? && 0 <= w.usec < 1000000
    && if When(t) >= Total(now) then 1000000 * w.sec + w.usec == 1000 * (When(t) - Total(now)) else w.sec == 0
  }

  /** Node k bypassed, the others are a list. */
  lemma WithoutLinked(nodes: seq<TimeEvent>, k: nat)
    requires k < |nodes|
    requires forall i {:trigger nodes[i].next} :: 0 <= i < |nodes| ==>
               nodes[i].next == if i == k - 1 then nodes[k].next else if i + 1 < |nodes| then nodes[i + 1] else null
    ensures var rest := nodes[..k] + nodes[k + 1..];
            forall i {:trigger rest[i].next} :: 0 <= i < |rest| ==>
              rest[i].next == if i + 1 < |rest| then rest[i + 1] else null
  {
    var rest := nodes[..k] + nodes[k + 1..];
    forall i {:trigger rest[i].next} | 0 <= i < |rest|
      ensures rest[i].next == if i + 1 < |rest| then rest[i + 1] else null
    {
      assert rest[i] == nodes[if i < k then i else i + 1];
    }
  }

  lemma WithoutShown(nodes: seq<TimeEvent>, ts: seq<Timer>, footprint: set<TimeEvent>, k: nat)
    requires k < |nodes| == |ts|
    requires forall i :: 0 <= i < |nodes| ==> nodes[i] in footprint && nodes[i].Value() == ts[i]
    ensures var rest, left := nodes[..k] + nodes[k + 1..], ts[..k] + ts[k + 1..];
            forall i :: 0 <= i < |rest| ==> rest[i] in footprint && rest[i].Value() == left[i]
  {
    var rest, left := nodes[..k] + nodes[k + 1..], ts[..k] + ts[k + 1..];
    forall i | 0 <= i < |rest| ensures rest[i] in footprint && rest[i].Value() == left[i] {
      var j := if i < k then i else i + 1;
      assert rest[i] == nodes[j] && left[i] == ts[j];
    }
  }

  lemma AddedInFront(s: State, now: Clock, milliseconds: int)
    requires Ordered(s)
    ensures var at := AddMilliseconds(now, milliseconds);
            && Apply(s, now, AddTimer(milliseconds)) == State([Timer(s.nextId, at.sec, at.ms)] + s.timers, s.nextId + 1)
            && (GoodClock(now) ==> 1000 * at.sec + at.ms == 1000 * now.sec + now.ms + milliseconds)
    ensures Ordered(Apply(s, now, AddTimer(milliseconds)))
  {
    ApplyEffect(s, now, s.nextId - 1, AddTimer(milliseconds));
    if GoodClock(now) {
      AddMillisecondsExact(now, milliseconds);
    }
  }

  lemma SkewedIs(before: seq<Timer>, after: seq<Timer>, nextId: int)
    requires Ordered(State(before, nextId)) && |after| == |before|
    requires forall i :: 0 <= i < |before| ==> after[i] == before[i].(sec := 0)
    ensures State(after, nextId) == Skewed(State(before, nextId))
  {
  }

  /** The wait of a loop that handles timers: without end if there are none, else
      exactly until the earliest is due. */
  ghost predicate WaitsForEarliest(w: Wait, ts: seq<Timer>, now: Clock) {
    if ts == [] then w == Forever
    else exists t :: t in ts && (forall u :: u in ts ==> When(t) <= When(u)) && WaitsExactly(w, t, now)
  }

  lemma NearestIsEarliest(ts: seq<Timer>, t: Timer)
    requires t in ts && forall u :: u in ts ==> !Before(u, t)
    ensures (forall i :: 0 <= i < |ts| ==> 0 <= ts[i].ms < 1000) ==> forall u :: u in ts ==> When(t) <= When(u)
  {
    if forall i :: 0 <= i < |ts| ==> 0 <= ts[i].ms < 1000 {
      forall u | u in ts ensures When(t) <= When(u) {
        BeforeIsEarlier(u, t);
      }
    }
  }

  predicate Before(a: Timer, b: Timer) {
    a.sec < b.sec || (a.sec == b.sec && a.ms < b.ms)
  }

  function When(t: Timer): int {
    Total(Clock(t.sec, t.ms))
  }

  /** Comparing seconds first and milliseconds second compares the total time. */
  lemma BeforeIsEarlier(a: Timer, b: Timer)
    requires 0 <= a.ms < 1000 && 0 <= b.ms < 1000
    ensures Before(a, b) <==> When(a) < When(b)
  {
  }

  lemma {:induction false} RemoveAt(ts: seq<Timer>, k: nat, n: int)
    requires k < |ts| && Ordered(State(ts, n))
    ensures Remove(ts, ts[k].id) == ts[..k] + ts[k + 1..]
  {
    if k > 0 {
      RemoveAt(ts[1..], k - 1, n);
      assert ts[1..][..k - 1] == ts[1..k] && ts[1..][k..] == ts[k + 1..];
    }
  }

  lemma {:induction false} RemoveAbsent(ts: seq<Timer>, id: int)
    requires forall i :: 0 <= i < |ts| ==> ts[i].id != id
    ensures Remove(ts, id) == ts
  {
    if ts != [] {
      RemoveAbsent(ts[1..], id);
    }
  }
}
