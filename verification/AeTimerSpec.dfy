/** What the timer pass of the event loop computes, on values: a reference for
    the linked-list code (Clang/aio/ae/ae.c). */
module AeTimerSpec {
  import opened Sequences

  const NOMORE := -1

  datatype Clock = Clock(sec: int, ms: int)

  /** A registered timer: its identifier and when it is due. */
  datatype Timer = Timer(id: int, sec: int, ms: int)

  predicate GoodClock(now: Clock) {
    0 <= now.ms < 1000
  }

  /** C division and remainder truncate toward zero. */
  function CDiv(a: int): int {
    if a >= 0 then a / 1000 else -((-a) / 1000)
  }

  function CMod(a: int): int {
    if a >= 0 then a % 1000 else -((-a) % 1000)
  }

  /** aeAddMillisecondsToNow */
  function AddMilliseconds(now: Clock, milliseconds: int): Clock {
    var sec := now.sec + CDiv(milliseconds);
    var ms := now.ms + CMod(milliseconds);
    if ms >= 1000 then Clock(sec + 1, ms - 1000) else Clock(sec, ms)
  }

  function Total(c: Clock): int {
    1000 * c.sec + c.ms
  }

  /** The result is exactly the delay away from now. It is a proper clock
      reading for every non-negative delay, and for a negative one exactly when
      its remainder does not reach below the current millisecond. */
  lemma AddMillisecondsExact(now: Clock, milliseconds: int)
    requires GoodClock(now)
    ensures Total(AddMilliseconds(now, milliseconds)) == Total(now) + milliseconds
    ensures GoodClock(AddMilliseconds(now, milliseconds)) <==> milliseconds >= 0 || now.ms + CMod(milliseconds) >= 0
  {
    assert milliseconds < 0 ==> -milliseconds == 1000 * ((-milliseconds) / 1000) + (-milliseconds) % 1000;
  }

  predicate Due(t: Timer, now: Clock) {
    now.sec > t.sec || (now.sec == t.sec && now.ms >= t.ms)
  }

  /** A timer is due once the clock has reached its time, counted in milliseconds. */
  lemma DueIsReached(t: Timer, now: Clock)
    requires GoodClock(now) && 0 <= t.ms < 1000
    ensures Due(t, now) <==> 1000 * t.sec + t.ms <= 1000 * now.sec + now.ms
  {
  }

  /** A handler that asks to be called again in r milliseconds is due again at
      the same clock reading exactly when r is not positive; such a handler
      would keep the pass from ever ending. */
  lemma DueAgain(now: Clock, id: int, r: int)
    requires GoodClock(now)
    ensures var c := AddMilliseconds(now, r); Due(Timer(id, c.sec, c.ms), now) <==> r <= 0
  {
    AddMillisecondsExact(now, r);
  }

  datatype TimerOp = AddTimer(milliseconds: int) | DelTimer(id: int)

  /** One run of a timer's callback: what it does to the timers, and its return value. */
  datatype Handler = Handler(ops: seq<TimerOp>, retval: int)

  /** script(n, id) is the n-th callback of a pass, made for timer id. */
  type Script = (nat, int) -> Handler

  /** What the source demands: a callback asks to be called again after a
      positive time or never, and one that asks to be called again has not
      deleted its own timer. */
  ghost predicate ProperScript(script: Script) {
    && (forall n, id :: script(n, id).retval == NOMORE || script(n, id).retval > 0)
    && (forall n, id :: script(n, id).retval != NOMORE ==> DelTimer(id) !in script(n, id).ops)
  }

  datatype State = State(timers: seq<Timer>, nextId: int)

  /** List identifiers strictly decrease and are all below the next one. */
  ghost predicate Ordered(s: State) {
    && (forall i :: 0 <= i < |s.timers| ==> 0 <= s.timers[i].id < s.nextId)
    && (forall i, j :: 0 <= i < j < |s.timers| ==> s.timers[i].id > s.timers[j].id)
    && s.nextId >= 0
  }

  function Remove(ts: seq<Timer>, id: int): seq<Timer> {
    if ts == [] then []
    else if ts[0].id == id then ts[1..]
    else [ts[0]] + Remove(ts[1..], id)
  }

  function Retime(ts: seq<Timer>, id: int, at: Clock): (r: seq<Timer>)
    ensures |r| == |ts|
  {
    seq(|ts|, i requires 0 <= i < |ts| => if ts[i].id == id then Timer(id, at.sec, at.ms) else ts[i])
  }

  function Apply(s: State, now: Clock, op: TimerOp): State {
    match op
    case AddTimer(ms) =>
      var at := AddMilliseconds(now, ms);
      State([Timer(s.nextId, at.sec, at.ms)] + s.timers, s.nextId + 1)
    case DelTimer(id) => State(Remove(s.timers, id), s.nextId)
  }

  function ApplyAll(s: State, now: Clock, ops: seq<TimerOp>): State {
    if ops == [] then s else Apply(ApplyAll(s, now, ops[..|ops| - 1]), now, ops[|ops| - 1])
  }

  /** Firing timer id: its callback runs, then it is put off or removed. */
  function Fire(s: State, now: Clock, id: int, h: Handler): State {
    var s1 := ApplyAll(s, now, h.ops);
    if h.retval != NOMORE then s1.(timers := Retime(s1.timers, id, AddMilliseconds(now, h.retval)))
    else s1.(timers := Remove(s1.timers, id))
  }

  predicate Ripe(t: Timer, now: Clock, maxId: int) {
    t.id <= maxId && Due(t, now)
  }

  /** The identifiers a pass with this maxId has still to fire. */
  ghost function Eligible(ts: seq<Timer>, now: Clock, maxId: int): set<int> {
    set i | 0 <= i < |ts| && Ripe(ts[i], now, maxId) :: ts[i].id
  }

  function FirstRipe(ts: seq<Timer>, now: Clock, maxId: int): (i: nat)
    ensures i <= |ts|
    ensures forall j :: 0 <= j < i ==> !Ripe(ts[j], now, maxId)
    ensures i < |ts| ==> Ripe(ts[i], now, maxId)
  {
    if ts == [] || Ripe(ts[0], now, maxId) then 0 else 1 + FirstRipe(ts[1..], now, maxId)
  }

  ghost function Deleted(ops: seq<TimerOp>): set<int> {
    set op | op in ops && op.DelTimer? :: op.id
  }

  /** Removal keeps everything but the timer removed, and the order of the rest. */
  lemma {:induction false} RemoveMembers(ts: seq<Timer>, id: int)
    requires forall i, j :: 0 <= i < j < |ts| ==> ts[i].id > ts[j].id
    ensures forall t :: t in Remove(ts, id) <==> t in ts && t.id != id
  {
    if ts != [] {
      RemoveMembers(ts[1..], id);
      assert ts == [ts[0]] + ts[1..];
    }
  }

  lemma {:induction false} RemoveOrdered(ts: seq<Timer>, id: int, n: int)
    requires Ordered(State(ts, n))
    ensures Ordered(State(Remove(ts, id), n))
  {
    if ts != [] && ts[0].id != id {
      var rest := Remove(ts[1..], id);
      RemoveOrdered(ts[1..], id, n);
      RemoveMembers(ts[1..], id);
      forall i | 0 <= i < |rest| ensures rest[i].id < ts[0].id {
        assert rest[i] in ts[1..];
      }
      OrderedCons(ts[0], rest, n);
    }
  }

  lemma OrderedCons(t: Timer, rest: seq<Timer>, n: int)
    requires Ordered(State(rest, n)) && 0 <= t.id < n
    requires forall i :: 0 <= i < |rest| ==> rest[i].id < t.id
    ensures Ordered(State([t] + rest, n))
  {
  }

  lemma EligibleMembers(ts: seq<Timer>, now: Clock, maxId: int, id: int)
    ensures id in Eligible(ts, now, maxId) <==> exists t :: t in ts && Ripe(t, now, maxId) && t.id == id
  {
  }

  /** One operation of a callback keeps the order and only takes away from what is left to fire. */
  lemma ApplyEffect(s: State, now: Clock, maxId: int, op: TimerOp)
    requires Ordered(s) && maxId < s.nextId
    ensures Ordered(Apply(s, now, op)) && s.nextId <= Apply(s, now, op).nextId
    ensures Eligible(Apply(s, now, op).timers, now, maxId) == Eligible(s.timers, now, maxId) - Deleted([op])
    ensures forall t :: t in s.timers && op != DelTimer(t.id) ==> t in Apply(s, now, op).timers
  {
    var s' := Apply(s, now, op);
    match op
    case AddTimer(_) =>
      forall id ensures id in Eligible(s'.timers, now, maxId) <==> id in Eligible(s.timers, now, maxId) {
        EligibleMembers(s'.timers, now, maxId, id);
        EligibleMembers(s.timers, now, maxId, id);
      }
    case DelTimer(d) =>
      RemoveOrdered(s.timers, d, s.nextId);
      RemoveMembers(s.timers, d);
      forall id ensures id in Eligible(s'.timers, now, maxId) <==> id in Eligible(s.timers, now, maxId) && id != d {
        EligibleMembers(s'.timers, now, maxId, id);
        EligibleMembers(s.timers, now, maxId, id);
      }
  }

  lemma {:induction false} ApplyAllEffect(s: State, now: Clock, maxId: int, ops: seq<TimerOp>)
    requires Ordered(s) && maxId < s.nextId
    ensures Ordered(ApplyAll(s, now, ops)) && s.nextId <= ApplyAll(s, now, ops).nextId
    ensures Eligible(ApplyAll(s, now, ops).timers, now, maxId) == Eligible(s.timers, now, maxId) - Deleted(ops)
    ensures forall t :: t in s.timers && DelTimer(t.id) !in ops ==> t in ApplyAll(s, now, ops).timers
  {
    if ops != [] {
      var init, last := ops[..|ops| - 1], ops[|ops| - 1];
      ApplyAllEffect(s, now, maxId, init);
      ApplyEffect(ApplyAll(s, now, init), now, maxId, last);
      assert ops == init + [last];
      assert Deleted(ops) == Deleted(init) + Deleted([last]);
    }
  }

  lemma RetimeOrdered(ts: seq<Timer>, id: int, at: Clock, n: int)
    requires Ordered(State(ts, n))
    ensures Ordered(State(Retime(ts, id, at), n))
  {
  }

  /** Firing takes the fired timer, and whatever its callback deleted, out of
      what is left to fire, and adds nothing. */
  lemma FireEffect(s: State, now: Clock, maxId: int, id: int, h: Handler)
    requires Ordered(s) && maxId < s.nextId && GoodClock(now)
    requires h.retval == NOMORE || h.retval > 0
    ensures Ordered(Fire(s, now, id, h)) && s.nextId <= Fire(s, now, id, h).nextId
    ensures Eligible(Fire(s, now, id, h).timers, now, maxId)
            == Eligible(s.timers, now, maxId) - Deleted(h.ops) - {id}
  {
    ApplyAllEffect(s, now, maxId, h.ops);
    var s1 := ApplyAll(s, now, h.ops);
    if h.retval == NOMORE {
      ApplyEffect(s1, now, maxId, DelTimer(id));
      assert Deleted([DelTimer(id)]) == {id} by { assert DelTimer(id) in [DelTimer(id)]; }
    } else {
      RetimeOrdered(s1.timers, id, AddMilliseconds(now, h.retval), s1.nextId);
      RetimeEffect(s1.timers, now, maxId, id, h.retval);
    }
  }

  lemma RetimeEffect(ts: seq<Timer>, now: Clock, maxId: int, id: int, retval: int)
    requires GoodClock(now) && retval > 0
    ensures Eligible(Retime(ts, id, AddMilliseconds(now, retval)), now, maxId) == Eligible(ts, now, maxId) - {id}
  {
    DueAgain(now, id, retval);
    var ts' := Retime(ts, id, AddMilliseconds(now, retval));
    assert forall i :: 0 <= i < |ts| ==> (Ripe(ts'[i], now, maxId) <==> Ripe(ts[i], now, maxId) && ts[i].id != id);
    assert forall i :: 0 <= i < |ts| ==> ts'[i].id == ts[i].id;
  }

  datatype PassResult = PassResult(fired: seq<int>, state: State)

  /** A pass: fire the first ripe timer of the list, start again from the head,
      until none is ripe. n counts the callbacks made before. */
  ghost function Pass(s: State, now: Clock, maxId: int, script: Script, n: nat): PassResult
    requires Ordered(s) && maxId < s.nextId && GoodClock(now) && ProperScript(script)
    decreases Eligible(s.timers, now, maxId)
  {
    var i := FirstRipe(s.timers, now, maxId);
    if i == |s.timers| then PassResult([], s)
    else
      var id := s.timers[i].id;
      var s' := Fire(s, now, id, script(n, id));
      FireEffect(s, now, maxId, id, script(n, id));
      assert id in Eligible(s.timers, now, maxId);
      var r := Pass(s', now, maxId, script, n + 1);
      PassResult([id] + r.fired, r.state)
  }

  /** The effect of a clock that has gone backwards: every timer is due at second 0
      (SkewedIsDue). */
  function Skewed(s: State): (r: State)
    requires Ordered(s)
    ensures Ordered(r)
  {
    State(seq(|s.timers|, i requires 0 <= i < |s.timers| => s.timers[i].(sec := 0)), s.nextId)
  }

  /** So they are all due, from second 1 on. */
  lemma SkewedIsDue(s: State, now: Clock)
    requires Ordered(s) && Normal(s) && now.sec >= 1 && GoodClock(now)
    ensures |Skewed(s).timers| == |s.timers|
    ensures forall i :: 0 <= i < |s.timers| ==>
              && Skewed(s).timers[i].id == s.timers[i].id
              && 0 <= 1000 * Skewed(s).timers[i].sec + Skewed(s).timers[i].ms <= 1000 * now.sec + now.ms
  {
  }

  lemma FirstRipeIs(ts: seq<Timer>, now: Clock, maxId: int, k: nat)
    requires k <= |ts| && (forall i :: 0 <= i < k ==> !Ripe(ts[i], now, maxId))
    requires k < |ts| ==> Ripe(ts[k], now, maxId)
    ensures FirstRipe(ts, now, maxId) == k
  {
  }

  /** One step of a pass: the first ripe timer fires, and the rest is a pass from what that leaves. */
  lemma PassStep(s: State, now: Clock, maxId: int, script: Script, n: nat, k: nat, s': State)
    requires Ordered(s) && maxId < s.nextId && GoodClock(now) && ProperScript(script)
    requires k < |s.timers| && Ripe(s.timers[k], now, maxId)
    requires forall i :: 0 <= i < k ==> !Ripe(s.timers[i], now, maxId)
    requires s' == Fire(s, now, s.timers[k].id, script(n, s.timers[k].id))
    ensures Ordered(s') && maxId < s'.nextId
    ensures Eligible(s'.timers, now, maxId) < Eligible(s.timers, now, maxId)
    ensures Pass(s, now, maxId, script, n).fired == [s.timers[k].id] + Pass(s', now, maxId, script, n + 1).fired
    ensures Pass(s, now, maxId, script, n).state == Pass(s', now, maxId, script, n + 1).state
  {
    FirstRipeIs(s.timers, now, maxId, k);
    var id := s.timers[k].id;
    FireEffect(s, now, maxId, id, script(n, id));
    assert id in Eligible(s.timers, now, maxId);
  }

  lemma FireLeavesOthers(s: State, now: Clock, id: int, h: Handler, t: Timer)
    requires Ordered(s) && t in s.timers && t.id != id && DelTimer(t.id) !in h.ops
    ensures t in Fire(s, now, id, h).timers
  {
    ApplyAllEffect(s, now, s.nextId - 1, h.ops);
    var s1 := ApplyAll(s, now, h.ops);
    if h.retval == NOMORE {
      RemoveMembers(s1.timers, id);
    } else {
      var k :| 0 <= k < |s1.timers| && s1.timers[k] == t;
      assert Retime(s1.timers, id, AddMilliseconds(now, h.retval))[k] == t;
    }
  }

  ghost predicate Absent(ts: seq<Timer>, id: int) {
    forall t :: t in ts ==> t.id != id
  }

  /** Identifiers are never used again. */
  lemma ApplyAbsent(s: State, now: Clock, op: TimerOp, id: int)
    requires Ordered(s) && id < s.nextId && (Absent(s.timers, id) || op == DelTimer(id))
    ensures Absent(Apply(s, now, op).timers, id)
  {
    match op
    case AddTimer(_) =>
    case DelTimer(d) => RemoveMembers(s.timers, d);
  }

  lemma {:induction false} ApplyAllAbsent(s: State, now: Clock, ops: seq<TimerOp>, id: int)
    requires Ordered(s) && id < s.nextId && (Absent(s.timers, id) || DelTimer(id) in ops)
    ensures Absent(ApplyAll(s, now, ops).timers, id)
  {
    if ops != [] {
      var init, last := ops[..|ops| - 1], ops[|ops| - 1];
      assert ops == init + [last];
      ApplyAllEffect(s, now, s.nextId - 1, init);
      if Absent(s.timers, id) || DelTimer(id) in init {
        ApplyAllAbsent(s, now, init, id);
      }
      ApplyAbsent(ApplyAll(s, now, init), now, last, id);
    }
  }

  lemma FireAbsent(s: State, now: Clock, fired: int, h: Handler, id: int)
    requires Ordered(s) && id < s.nextId
    requires Absent(s.timers, id) || DelTimer(id) in h.ops || (fired == id && h.retval == NOMORE)
    ensures Absent(Fire(s, now, fired, h).timers, id)
  {
    var s1 := ApplyAll(s, now, h.ops);
    ApplyAllEffect(s, now, s.nextId - 1, h.ops);
    if Absent(s.timers, id) || DelTimer(id) in h.ops {
      ApplyAllAbsent(s, now, h.ops, id);
    }
    if h.retval == NOMORE {
      RemoveMembers(s1.timers, fired);
    } else {
      RetimeMembers(s1.timers, fired, AddMilliseconds(now, h.retval));
    }
  }

  /** Putting a timer off changes its time only. */
  lemma RetimeMembers(ts: seq<Timer>, id: int, at: Clock)
    ensures forall t :: t in Retime(ts, id, at) <==>
              (t in ts && t.id != id) || (t == Timer(id, at.sec, at.ms) && exists u :: u in ts && u.id == id)
  {
    var ts' := Retime(ts, id, at);
    forall t | t in ts && t.id != id ensures t in ts' {
      var i :| 0 <= i < |ts| && ts[i] == t;
      assert ts'[i] == t;
    }
    forall u | u in ts && u.id == id ensures Timer(id, at.sec, at.ms) in ts' {
      var i :| 0 <= i < |ts| && ts[i] == u;
      assert ts'[i] == Timer(id, at.sec, at.ms);
    }
    forall t | t in ts'
      ensures (t in ts && t.id != id) || (t == Timer(id, at.sec, at.ms) && exists u :: u in ts && u.id == id)
    {
      var i :| 0 <= i < |ts| && ts'[i] == t;
      assert ts[i] in ts;
    }
  }

  lemma {:induction false} PassAbsent(s: State, now: Clock, maxId: int, script: Script, n: nat, id: int)
    requires Ordered(s) && maxId < s.nextId && GoodClock(now) && ProperScript(script)
    requires id < s.nextId && Absent(s.timers, id)
    ensures Absent(Pass(s, now, maxId, script, n).state.timers, id)
    decreases Eligible(s.timers, now, maxId)
  {
    var i := FirstRipe(s.timers, now, maxId);
    if i < |s.timers| {
      var f := s.timers[i].id;
      var s' := Fire(s, now, f, script(n, f));
      PassStep(s, now, maxId, script, n, i, s');
      FireEffect(s, now, maxId, f, script(n, f));
      FireAbsent(s, now, f, script(n, f), id);
      PassAbsent(s', now, maxId, script, n + 1, id);
    }
  }

  /** The j-th of the callbacks made for these timers, from the k-th on, deletes timer x. */
  ghost predicate DeletedFrom(fired: seq<int>, script: Script, n: nat, k: nat, x: int) {
    exists j :: k <= j < |fired| && DelTimer(x) in script(n + j, fired[j]).ops
  }

  lemma DeletedFromShift(id: int, fired: seq<int>, script: Script, n: nat, k: nat, x: int)
    ensures DeletedFrom([id] + fired, script, n, k + 1, x) <==> DeletedFrom(fired, script, n + 1, k, x)
  {
    hide DeletedFrom;
    var all := [id] + fired;
    if DeletedFrom(fired, script, n + 1, k, x) {
      var j := DeletingOf(fired, script, n + 1, k, x);
      DeletedAt(all, script, n, k + 1, x, j + 1);
    } else if DeletedFrom(all, script, n, k + 1, x) {
      var j := DeletingOf(all, script, n, k + 1, x);
      DeletedAt(fired, script, n + 1, k, x, j - 1);
    }
  }

  lemma DeletingOf(fired: seq<int>, script: Script, n: nat, k: nat, x: int) returns (j: nat)
    requires DeletedFrom(fired, script, n, k, x)
    ensures k <= j < |fired| && DelTimer(x) in script(n + j, fired[j]).ops
  {
    j :| k <= j < |fired| && DelTimer(x) in script(n + j, fired[j]).ops;
  }

  lemma DeletedAt(fired: seq<int>, script: Script, n: nat, k: nat, x: int, j: nat)
    requires k <= j < |fired| && DelTimer(x) in script(n + j, fired[j]).ops
    ensures DeletedFrom(fired, script, n, k, x)
  {
  }

  lemma DeletedFromStep(id: int, fired: seq<int>, script: Script, n: nat, x: int)
    ensures DeletedFrom([id] + fired, script, n, 0, x)
            <==> DelTimer(x) in script(n, id).ops || DeletedFrom(fired, script, n + 1, 0, x)
  {
    var all := [id] + fired;
    DeletedFromShift(id, fired, script, n, 0, x);
    assert all[0] == id;
    if DelTimer(x) in script(n, id).ops {
      assert DelTimer(x) in script(n + 0, all[0]).ops;
    }
    if DeletedFrom(all, script, n, 0, x) && DelTimer(x) !in script(n, id).ops {
      var j :| 0 <= j < |all| && DelTimer(x) in script(n + j, all[j]).ops;
      assert j >= 1;
    }
  }

  /** A timer that does not fire in a pass is left as it was exactly when no callback
      of the pass deletes it; otherwise it is gone. */
  lemma {:induction false} PassLeavesOthers(s: State, now: Clock, maxId: int, script: Script, n: nat, t: Timer)
    requires Ordered(s) && maxId < s.nextId && GoodClock(now) && ProperScript(script)
    requires t in s.timers && t.id !in Pass(s, now, maxId, script, n).fired
    ensures var r := Pass(s, now, maxId, script, n);
            if DeletedFrom(r.fired, script, n, 0, t.id) then Absent(r.state.timers, t.id) else t in r.state.timers
    decreases Eligible(s.timers, now, maxId)
  {
    var i := FirstRipe(s.timers, now, maxId);
    if i < |s.timers| {
      var id := s.timers[i].id;
      var h := script(n, id);
      var s' := Fire(s, now, id, h);
      PassStep(s, now, maxId, script, n, i, s');
      FireEffect(s, now, maxId, id, h);
      var fired' := Pass(s', now, maxId, script, n + 1).fired;
      DeletedFromStep(id, fired', script, n, t.id);
      if DelTimer(t.id) in h.ops {
        FireAbsent(s, now, id, h, t.id);
        PassAbsent(s', now, maxId, script, n + 1, t.id);
      } else {
        FireLeavesOthers(s, now, id, h, t);
        PassLeavesOthers(s', now, maxId, script, n + 1, t);
      }
    }
  }

  /** Some callback before the turn of timer x deleted it: the callbacks are
      made in the order of fired, the k-th of them being callback n + k. */
  ghost predicate DeletedFirst(fired: seq<int>, script: Script, n: nat, x: int) {
    exists k :: 0 <= k < |fired| && fired[k] > x && DelTimer(x) in script(n + k, fired[k]).ops
  }

  /** The main result about a pass. It fires in strictly decreasing order of
      identifier, so no timer twice; it fires exactly the timers that were ripe
      at the start and that no callback made earlier deleted, so none of those
      created on the way; and it leaves nothing ripe. */
  lemma {:induction false} PassFiresEachOnce(s: State, now: Clock, maxId: int, script: Script, n: nat)
    requires Ordered(s) && maxId < s.nextId && GoodClock(now) && ProperScript(script)
    ensures var r := Pass(s, now, maxId, script, n);
            && (forall i, j :: 0 <= i < j < |r.fired| ==> r.fired[i] > r.fired[j])
            && (forall x :: x in r.fired <==>
                  x in Eligible(s.timers, now, maxId) && !DeletedFirst(r.fired, script, n, x))
            && Ordered(r.state) && s.nextId <= r.state.nextId
            && Eligible(r.state.timers, now, maxId) == {}
    decreases Eligible(s.timers, now, maxId)
  {
    var i := FirstRipe(s.timers, now, maxId);
    if i < |s.timers| {
      var id := s.timers[i].id;
      var h := script(n, id);
      var s' := Fire(s, now, id, h);
      FireEffect(s, now, maxId, id, h);
      assert id in Eligible(s.timers, now, maxId);
      PassFiresEachOnce(s', now, maxId, script, n + 1);
      var r := Pass(s', now, maxId, script, n + 1);
      FirstIsGreatest(s, now, maxId, i);
      FiredStep(Eligible(s.timers, now, maxId), Eligible(s'.timers, now, maxId), id, r.fired, script, n);
    }
  }

  /** Timers up to maxId have proper times. */
  predicate NormalUpTo(ts: seq<Timer>, maxId: int) {
    forall t :: t in ts && t.id <= maxId ==> 0 <= t.ms < 1000
  }

  lemma {:induction false} ApplyAllNormalUpTo(s: State, now: Clock, maxId: int, ops: seq<TimerOp>)
    requires Ordered(s) && maxId < s.nextId && NormalUpTo(s.timers, maxId)
    ensures NormalUpTo(ApplyAll(s, now, ops).timers, maxId)
  {
    if ops != [] {
      var init, last := ops[..|ops| - 1], ops[|ops| - 1];
      ApplyAllNormalUpTo(s, now, maxId, init);
      ApplyAllEffect(s, now, maxId, init);
      if last.DelTimer? {
        RemoveMembers(ApplyAll(s, now, init).timers, last.id);
      }
    }
  }

  lemma FireNormalUpTo(s: State, now: Clock, maxId: int, id: int, h: Handler)
    requires Ordered(s) && maxId < s.nextId && GoodClock(now) && NormalUpTo(s.timers, maxId)
    requires h.retval == NOMORE || h.retval > 0
    ensures NormalUpTo(Fire(s, now, id, h).timers, maxId)
  {
    ApplyAllEffect(s, now, maxId, h.ops);
    ApplyAllNormalUpTo(s, now, maxId, h.ops);
    var s1 := ApplyAll(s, now, h.ops);
    hide ApplyAll;
    if h.retval == NOMORE {
      RemoveMembers(s1.timers, id);
    } else {
      AddMillisecondsExact(now, h.retval);
      RetimeMembers(s1.timers, id, AddMilliseconds(now, h.retval));
    }
  }

  lemma {:induction false} PassKeepsNormalUpTo(s: State, now: Clock, maxId: int, script: Script, n: nat)
    requires Ordered(s) && maxId < s.nextId && GoodClock(now) && ProperScript(script) && NormalUpTo(s.timers, maxId)
    ensures NormalUpTo(Pass(s, now, maxId, script, n).state.timers, maxId)
    decreases Eligible(s.timers, now, maxId)
  {
    hide Fire, NormalUpTo;
    var i := FirstRipe(s.timers, now, maxId);
    if i < |s.timers| {
      var id := s.timers[i].id;
      var s' := Fire(s, now, id, script(n, id));
      PassStep(s, now, maxId, script, n, i, s');
      FireNormalUpTo(s, now, maxId, id, script(n, id));
      PassKeepsNormalUpTo(s', now, maxId, script, n + 1);
    }
  }

  /** The same in milliseconds: of timers with proper times, a pass fires exactly those
      up to maxId whose time the clock has reached and that no callback made earlier
      deleted, and every timer up to maxId that it leaves lies ahead of the clock. */
  lemma PassIsOnTime(s: State, now: Clock, maxId: int, script: Script, n: nat)
    requires Ordered(s) && maxId < s.nextId && GoodClock(now) && ProperScript(script) && NormalUpTo(s.timers, maxId)
    ensures var r := Pass(s, now, maxId, script, n);
            && (forall x :: x in r.fired <==>
                  (exists t :: t in s.timers && t.id == x && x <= maxId
                               && 1000 * t.sec + t.ms <= 1000 * now.sec + now.ms)
                  && !DeletedFirst(r.fired, script, n, x))
            && (forall t :: t in r.state.timers && t.id <= maxId ==>
                  1000 * now.sec + now.ms < 1000 * t.sec + t.ms)
  {
    PassFiresEachOnce(s, now, maxId, script, n);
    PassKeepsNormalUpTo(s, now, maxId, script, n);
    var r := Pass(s, now, maxId, script, n);
    hide Pass, Ordered, Eligible, DeletedFirst, Due;
    forall x ensures x in Eligible(s.timers, now, maxId) <==>
                       exists t :: t in s.timers && t.id == x && x <= maxId
                                   && 1000 * t.sec + t.ms <= 1000 * now.sec + now.ms
    {
      EligibleOnTime(s.timers, now, maxId, x);
    }
    forall t | t in r.state.timers && t.id <= maxId
      ensures 1000 * now.sec + now.ms < 1000 * t.sec + t.ms
    {
      EligibleOnTime(r.state.timers, now, maxId, t.id);
    }
  }

  lemma EligibleOnTime(ts: seq<Timer>, now: Clock, maxId: int, x: int)
    requires GoodClock(now) && NormalUpTo(ts, maxId)
    ensures x in Eligible(ts, now, maxId) <==>
              exists t :: t in ts && t.id == x && x <= maxId && 1000 * t.sec + t.ms <= 1000 * now.sec + now.ms
  {
    EligibleMembers(ts, now, maxId, x);
    hide Eligible;
    forall t | t in ts && t.id <= maxId
      ensures Due(t, now) <==> 1000 * t.sec + t.ms <= 1000 * now.sec + now.ms
    {
      DueIsReached(t, now);
    }
  }

  /** How many timers these operations add. */
  function Adds(ops: seq<TimerOp>): nat {
    if ops == [] then 0 else Adds(ops[..|ops| - 1]) + if ops[|ops| - 1].AddTimer? then 1 else 0
  }

  /** The timer that the k-th operation adds: it has the next free identifier, and unless
      a later operation deletes it, it is there in the end, due exactly its delay from now. */
  lemma AddedIsThere(s: State, now: Clock, ops: seq<TimerOp>, k: nat)
    requires Ordered(s) && GoodClock(now) && k < |ops| && ops[k].AddTimer?
    ensures var id, left := s.nextId + Adds(ops[..k]), ApplyAll(s, now, ops).timers;
            if DelTimer(id) in ops[k + 1..] then Absent(left, id)
            else exists t :: t in left && t.id == id
                             && 1000 * t.sec + t.ms == 1000 * now.sec + now.ms + ops[k].milliseconds
  {
    AddedStays(s, now, ops, k);
    AddMillisecondsExact(now, ops[k].milliseconds);
  }

  lemma {:induction false} AddedStays(s: State, now: Clock, ops: seq<TimerOp>, k: nat)
    requires Ordered(s) && k < |ops| && ops[k].AddTimer?
    ensures var id, left := s.nextId + Adds(ops[..k]), ApplyAll(s, now, ops).timers;
            var at := AddMilliseconds(now, ops[k].milliseconds);
            if DelTimer(id) in ops[k + 1..] then Absent(left, id) else Timer(id, at.sec, at.ms) in left
    decreases |ops|
  {
    hide Ordered, AddMilliseconds, Absent, Apply;
    var init, last := ops[..|ops| - 1], ops[|ops| - 1];
    var before := ApplyAll(s, now, init);
    ApplyAllEffect(s, now, s.nextId - 1, init);
    NextIdIs(s, now, init);
    assert ApplyAll(s, now, ops) == Apply(before, now, last);
    hide ApplyAll;
    if k == |ops| - 1 {
      assert ops[..k] == init && ops[k + 1..] == [];
      JustAdded(before, now, last);
    } else {
      AddedStays(s, now, init, k);
      AddsMonotone(init, k);
      assert init[..k] == ops[..k];
      hide Adds;
      var id := s.nextId + Adds(ops[..k]);
      LastOfRest(ops, k, DelTimer(id));
      ApplyOneMore(before, now, last, id);
    }
  }

  lemma JustAdded(s: State, now: Clock, op: TimerOp)
    requires op.AddTimer?
    ensures var at := AddMilliseconds(now, op.milliseconds);
            Timer(s.nextId, at.sec, at.ms) in Apply(s, now, op).timers
  {
    assert Apply(s, now, op).timers[0] in Apply(s, now, op).timers;
  }

  lemma LastOfRest(ops: seq<TimerOp>, k: nat, op: TimerOp)
    requires k < |ops| - 1
    ensures op in ops[k + 1..] <==> op in ops[..|ops| - 1][k + 1..] || op == ops[|ops| - 1]
  {
    assert ops[k + 1..] == ops[..|ops| - 1][k + 1..] + [ops[|ops| - 1]];
  }

  lemma {:induction false} NextIdIs(s: State, now: Clock, ops: seq<TimerOp>)
    ensures ApplyAll(s, now, ops).nextId == s.nextId + Adds(ops)
  {
    if ops != [] {
      NextIdIs(s, now, ops[..|ops| - 1]);
    }
  }

  lemma {:induction false} AddsMonotone(ops: seq<TimerOp>, k: nat)
    requires k < |ops| && ops[k].AddTimer?
    ensures Adds(ops[..k]) < Adds(ops)
  {
    var init := ops[..|ops| - 1];
    if k < |init| {
      AddsMonotone(init, k);
      assert init[..k] == ops[..k];
    }
  }

  lemma ApplyOneMore(s: State, now: Clock, op: TimerOp, id: int)
    requires Ordered(s) && id < s.nextId
    ensures op == DelTimer(id) || Absent(s.timers, id) ==> Absent(Apply(s, now, op).timers, id)
    ensures op != DelTimer(id) ==> forall t :: t in s.timers && t.id == id ==> t in Apply(s, now, op).timers
  {
    ApplyEffect(s, now, s.nextId - 1, op);
    if op == DelTimer(id) || Absent(s.timers, id) {
      ApplyAbsent(s, now, op, id);
    }
  }

  /** What is left of the timer that fired k-th: nothing if its callback answered
      NOMORE or a later one deleted it; otherwise it is due exactly as long after now
      as its callback asked for. */
  ghost predicate Settled(r: PassResult, now: Clock, script: Script, n: nat, k: nat)
    requires k < |r.fired|
  {
    var id := r.fired[k];
    var retval := script(n + k, id).retval;
    if retval == NOMORE || DeletedFrom(r.fired, script, n, k + 1, id) then Absent(r.state.timers, id)
    else
      var at := AddMilliseconds(now, retval);
      Timer(id, at.sec, at.ms) in r.state.timers
  }

  lemma SettledStep(r: PassResult, r': PassResult, id: int, now: Clock, script: Script, n: nat, k: nat)
    requires r == PassResult([id] + r'.fired, r'.state) && k < |r'.fired| && Settled(r', now, script, n + 1, k)
    ensures Settled(r, now, script, n, k + 1)
  {
    assert r.fired[k + 1] == r'.fired[k] && n + (k + 1) == n + 1 + k;
    DeletedFromShift(id, r'.fired, script, n, k + 1, r'.fired[k]);
  }

  /** What a pass leaves of the timers that fire in it. */
  lemma {:induction false} PassSettlesFired(s: State, now: Clock, maxId: int, script: Script, n: nat, k: nat)
    requires Ordered(s) && maxId < s.nextId && GoodClock(now) && ProperScript(script)
    requires k < |Pass(s, now, maxId, script, n).fired|
    ensures Settled(Pass(s, now, maxId, script, n), now, script, n, k)
    decreases Eligible(s.timers, now, maxId)
  {
    FiredHasFirst(s, now, maxId, script, n);
    hide Pass, Settled, Fire, Ordered, ProperScript;
    var i := FirstRipe(s.timers, now, maxId);
    var id := s.timers[i].id;
    var s' := Fire(s, now, id, script(n, id));
    PassStep(s, now, maxId, script, n, i, s');
    var r, r' := Pass(s, now, maxId, script, n), Pass(s', now, maxId, script, n + 1);
    if k > 0 {
      PassSettlesFired(s', now, maxId, script, n + 1, k - 1);
      SettledStep(r, r', id, now, script, n, k - 1);
    } else {
      FirstIsSettled(s, now, maxId, script, n, s.timers[i], s', r');
    }
  }

  lemma FiredHasFirst(s: State, now: Clock, maxId: int, script: Script, n: nat)
    requires Ordered(s) && maxId < s.nextId && GoodClock(now) && ProperScript(script)
    ensures Pass(s, now, maxId, script, n).fired != [] ==> FirstRipe(s.timers, now, maxId) < |s.timers|
  {
  }

  lemma FirstIsSettled(s: State, now: Clock, maxId: int, script: Script, n: nat, t: Timer, s': State, r': PassResult)
    requires Ordered(s) && Ordered(s') && maxId < s.nextId && maxId < s'.nextId
    requires GoodClock(now) && ProperScript(script)
    requires t in s.timers && t.id <= maxId && s' == Fire(s, now, t.id, script(n, t.id))
    requires r' == Pass(s', now, maxId, script, n + 1)
    ensures Settled(PassResult([t.id] + r'.fired, r'.state), now, script, n, 0)
  {
    var id, h := t.id, script(n, t.id);
    FireEffect(s, now, maxId, id, h);
    PassFiresEachOnce(s', now, maxId, script, n + 1);
    DeletedFromShift(id, r'.fired, script, n, 0, id);
    hide Pass, Fire, Eligible;
    if h.retval == NOMORE {
      FireAbsent(s, now, id, h, id);
      PassAbsent(s', now, maxId, script, n + 1, id);
    } else {
      FirePutsOff(s, now, id, h);
      var at := AddMilliseconds(now, h.retval);
      PassLeavesOthers(s', now, maxId, script, n + 1, Timer(id, at.sec, at.ms));
    }
  }

  lemma FirePutsOff(s: State, now: Clock, id: int, h: Handler)
    requires Ordered(s) && h.retval != NOMORE && DelTimer(id) !in h.ops && exists t :: t in s.timers && t.id == id
    ensures var at := AddMilliseconds(now, h.retval); Timer(id, at.sec, at.ms) in Fire(s, now, id, h).timers
  {
    ApplyAllEffect(s, now, s.nextId - 1, h.ops);
    var t :| t in s.timers && t.id == id;
    assert t in ApplyAll(s, now, h.ops).timers;
    RetimeMembers(ApplyAll(s, now, h.ops).timers, id, AddMilliseconds(now, h.retval));
  }

  /** How what fires, from a set of eligible timers, grows by the first to fire. */
  lemma FiredStep(eligible: set<int>, left: set<int>, id: int, fired: seq<int>, script: Script, n: nat)
    requires id in eligible && left == eligible - Deleted(script(n, id).ops) - {id}
    requires forall x :: x in eligible ==> x <= id
    requires forall x :: x in fired <==> x in left && !DeletedFirst(fired, script, n + 1, x)
    ensures forall x :: x in [id] + fired <==> x in eligible && !DeletedFirst([id] + fired, script, n, x)
    ensures forall k :: 0 <= k < |fired| ==> fired[k] < id
  {
    assert forall k :: 0 <= k < |fired| ==> fired[k] in fired;
    forall x ensures x in [id] + fired <==> x in eligible && !DeletedFirst([id] + fired, script, n, x) {
      DeletedFirstStep(id, fired, script, n, x);
      assert x in Deleted(script(n, id).ops) <==> DelTimer(x) in script(n, id).ops;
    }
  }

  /** Every time is a proper clock reading, as the wait before a poll takes for granted. */
  predicate Normal(s: State) {
    forall i :: 0 <= i < |s.timers| ==> 0 <= s.timers[i].ms < 1000
  }

  predicate NoNegativeDelay(ops: seq<TimerOp>) {
    forall i :: 0 <= i < |ops| && ops[i].AddTimer? ==> ops[i].milliseconds >= 0
  }

  lemma {:induction false} ApplyAllNormal(s: State, now: Clock, ops: seq<TimerOp>)
    requires Ordered(s) && Normal(s) && GoodClock(now) && NoNegativeDelay(ops)
    ensures Normal(ApplyAll(s, now, ops))
  {
    if ops != [] {
      var init, last := ops[..|ops| - 1], ops[|ops| - 1];
      ApplyAllNormal(s, now, init);
      ApplyAllEffect(s, now, s.nextId - 1, init);
      match last
      case AddTimer(ms) => AddMillisecondsExact(now, ms);
      case DelTimer(id) => RemoveNormal(ApplyAll(s, now, init), id);
    }
  }

  lemma RemoveNormal(s: State, id: int)
    requires Ordered(s) && Normal(s)
    ensures Normal(s.(timers := Remove(s.timers, id)))
  {
    RemoveMembers(s.timers, id);
    forall i | 0 <= i < |Remove(s.timers, id)| ensures 0 <= Remove(s.timers, id)[i].ms < 1000 {
      assert Remove(s.timers, id)[i] in s.timers;
    }
  }

  lemma FireNormal(s: State, now: Clock, id: int, h: Handler)
    requires Ordered(s) && Normal(s) && GoodClock(now) && NoNegativeDelay(h.ops)
    requires h.retval == NOMORE || h.retval > 0
    ensures Normal(Fire(s, now, id, h))
  {
    ApplyAllNormal(s, now, h.ops);
    ApplyAllEffect(s, now, s.nextId - 1, h.ops);
    if h.retval == NOMORE {
      RemoveNormal(ApplyAll(s, now, h.ops), id);
    } else {
      AddMillisecondsExact(now, h.retval);
    }
  }

  /** A pass keeps times proper, when no callback asks for a negative delay. */
  lemma {:induction false} PassKeepsNormal(s: State, now: Clock, maxId: int, script: Script, n: nat)
    requires Ordered(s) && maxId < s.nextId && GoodClock(now) && ProperScript(script) && Normal(s)
    requires forall m, id :: NoNegativeDelay(script(m, id).ops)
    ensures Normal(Pass(s, now, maxId, script, n).state) && Normal(Skewed(s))
    decreases Eligible(s.timers, now, maxId)
  {
    var i := FirstRipe(s.timers, now, maxId);
    if i < |s.timers| {
      var id := s.timers[i].id;
      var h := script(n, id);
      var s' := Fire(s, now, id, h);
      PassStep(s, now, maxId, script, n, i, s');
      FireNormal(s, now, id, h);
      PassKeepsNormal(s', now, maxId, script, n + 1);
    }
  }

  lemma FirstIsGreatest(s: State, now: Clock, maxId: int, i: nat)
    requires Ordered(s) && i == FirstRipe(s.timers, now, maxId) < |s.timers|
    ensures forall x :: x in Eligible(s.timers, now, maxId) ==> x <= s.timers[i].id
  {
  }

  lemma DeletedFirstStep(id: int, fired: seq<int>, script: Script, n: nat, x: int)
    ensures DeletedFirst([id] + fired, script, n, x) <==>
              (id > x && DelTimer(x) in script(n, id).ops) || DeletedFirst(fired, script, n + 1, x)
  {
    var all := [id] + fired;
    if DeletedFirst(fired, script, n + 1, x) {
      var k :| 0 <= k < |fired| && fired[k] > x && DelTimer(x) in script(n + 1 + k, fired[k]).ops;
      assert all[k + 1] == fired[k] && n + (k + 1) == n + 1 + k;
    }
    if DeletedFirst(all, script, n, x) {
      var k :| 0 <= k < |all| && all[k] > x && DelTimer(x) in script(n + k, all[k]).ops;
      if k > 0 {
        assert all[k] == fired[k - 1] && n + k == n + 1 + (k - 1);
      }
    }
    if id > x && DelTimer(x) in script(n, id).ops {
      assert all[0] == id;
    }
  }

  /** After the callbacks in fired, the pass whose result is whole goes on as a pass from state t. */
  ghost predicate Continues(whole: PassResult, t: State, now: Clock, maxId: int, script: Script, fired: seq<int>)
    requires Ordered(t) && maxId < t.nextId && GoodClock(now) && ProperScript(script)
  {
    && whole.fired == fired + Pass(t, now, maxId, script, |fired|).fired
    && whole.state == Pass(t, now, maxId, script, |fired|).state
  }

  lemma ContinuesStart(s: State, now: Clock, maxId: int, script: Script) returns (whole: PassResult)
    requires Ordered(s) && maxId < s.nextId && GoodClock(now) && ProperScript(script)
    ensures whole == Pass(s, now, maxId, script, 0) && Continues(whole, s, now, maxId, script, [])
  {
    whole := Pass(s, now, maxId, script, 0);
  }

  lemma ContinuesStep(whole: PassResult, t: State, now: Clock, maxId: int, script: Script, fired: seq<int>,
                      k: nat, t': State)
    requires Ordered(t) && maxId < t.nextId && GoodClock(now) && ProperScript(script)
    requires k < |t.timers| && Ripe(t.timers[k], now, maxId)
    requires forall i :: 0 <= i < k ==> !Ripe(t.timers[i], now, maxId)
    requires t' == Fire(t, now, t.timers[k].id, script(|fired|, t.timers[k].id))
    requires Continues(whole, t, now, maxId, script, fired)
    ensures Ordered(t') && maxId < t'.nextId
    ensures Eligible(t'.timers, now, maxId) < Eligible(t.timers, now, maxId)
    ensures Continues(whole, t', now, maxId, script, fired + [t.timers[k].id])
  {
    hide Fire, FirstRipe;
    PassStep(t, now, maxId, script, |fired|, k, t');
    Associates(fired, [t.timers[k].id], Pass(t', now, maxId, script, |fired| + 1).fired);
    assert |fired + [t.timers[k].id]| == |fired| + 1;
  }

  lemma ContinuesEnd(whole: PassResult, t: State, now: Clock, maxId: int, script: Script, fired: seq<int>)
    requires Ordered(t) && maxId < t.nextId && GoodClock(now) && ProperScript(script)
    requires forall i :: 0 <= i < |t.timers| ==> !Ripe(t.timers[i], now, maxId)
    requires Continues(whole, t, now, maxId, script, fired)
    ensures whole == PassResult(fired, t)
  {
    FirstRipeIs(t.timers, now, maxId, |t.timers|);
  }
}
