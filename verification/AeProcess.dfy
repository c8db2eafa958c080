/** aeProcessEvents and aeMain (Clang/aio/ae/ae.c): the wait, the file events and the
    timers of one event loop, with callbacks that may change both. */
module AeProcess {
  import opened AeMask
  import opened AeEventLoop
  import opened AeCalls
  import opened AeTimers
  import opened AeTurnSpec
  import AeTimerSpec

  type Clock = AeTimerSpec.Clock
  type State = AeTimerSpec.State

  /** Over every backend: a poll for an empty table fires nothing, whatever the answer. */
  lemma EmptyTableFiresNothing(api: Api, masks: seq<Mask>, answer: Answer)
    requires Possible(api, masks, answer) && IsMaxFd(masks, -1)
    ensures FiredBy(api, masks, answer) == []
  {
    FiredFits(api, masks, answer);
    var f := FiredBy(api, masks, answer);
    assert f != [] ==> Registered(masks, f[0].fd);
  }

  /** Leaving the poll out while nothing is registered leaves out nothing. */
  lemma NothingDone(api: Api, w: World, clock: Clock, answer: Answer, script: FileScript)
    requires AeTimerSpec.Ordered(w.timers)
    requires ProperFileScript(script) && Possible(api, MasksOf(w.table), answer) && IsMaxFd(MasksOf(w.table), -1)
    ensures CallsMade(api, w, answer, script) == [] && AfterFiles(api, w, clock, answer, script) == w
    ensures FiredBy(api, MasksOf(w.table), answer) == []
  {
    EmptyTableFiresNothing(api, MasksOf(w.table), answer);
    TableAtStart(w.table, FilePart(script));
  }

  /** Since the flags do not decide about file events once they ask for timers, it is
      the table that does: no answer and no callbacks can lead to a file callback
      exactly when no descriptor is registered. */
  lemma NoFileCallExactly(api: Api, w: World)
    ensures (forall answer, script :: ProperFileScript(script) && Possible(api, MasksOf(w.table), answer) ==>
               CallsMade(api, w, answer, script) == [])
            <==> IsMaxFd(MasksOf(w.table), -1)
  {
    if IsMaxFd(MasksOf(w.table), -1) {
      forall answer, script | ProperFileScript(script) && Possible(api, MasksOf(w.table), answer)
        ensures CallsMade(api, w, answer, script) == []
      {
        EmptyTableFiresNothing(api, MasksOf(w.table), answer);
      }
    } else {
      var fd :| 0 <= fd < |w.table| && !MasksOf(w.table)[fd].Empty();
      SomeFileCall(api, w, fd, (n: nat) => Callback([], []));
    }
  }

  lemma SomeFileCall(api: Api, w: World, fd: int, script: FileScript)
    requires Registered(MasksOf(w.table), fd) && forall n: nat :: script(n) == Callback([], [])
    ensures var answer := ReadyAnswer(api, w.table[fd].mask, fd);
            && ProperFileScript(script) && Possible(api, MasksOf(w.table), answer)
            && CallsMade(api, w, answer, script) != []
  {
    var answer := ReadyAnswer(api, w.table[fd].mask, fd);
    RegisteredCanBeCalled(api, w.table, fd, FilePart(script));
    var fired := FiredBy(api, MasksOf(w.table), answer);
    var j :| 0 <= j < |fired| && fired[j].fd == fd && Made(w.table, FilePart(script), fired, j);
    MadeIsThere(w.table, FilePart(script), fired, j);
  }

  /** A world with one descriptor, not registered, and one timer that is due. */
  const ONE_TIMER := World([FileEvent(NONE, 0, 0, 0)], AeTimerSpec.State([AeTimerSpec.Timer(0, 0, 0)], 1), 0)

  /** The callback of the timer registers the descriptor. */
  ghost function Registers(): TimerScript {
    (n: nat, id: int) => TimerCallback([Create(0, Mask(true, false), 0, 0)], [], AeTimerSpec.NOMORE)
  }

  /** A file event that a timer callback registers is not processed in the same turn:
      from this world, whatever the kernel answers, the turn makes no file callback,
      although its timer fires and leaves the descriptor registered. */
  lemma TimerRegistersTooLate(api: Api, t: Turn)
    requires PossibleEvents(api, ONE_TIMER, t) && t.timerScript == Registers()
    requires t.time == 0 && t.now == AeTimerSpec.Clock(1, 0)
    ensures AeTimerSpec.Ordered(ONE_TIMER.timers)
    ensures CallsMade(api, ONE_TIMER, t.answer, t.script) == []
    ensures var left := AfterFiles(api, ONE_TIMER, t.clock, t.answer, t.script);
            && PassOf(left, t.time, t.now, t.timerScript).fired == [0]
            && Registered(MasksOf(AfterTimers(left, t.time, t.now, t.timerScript).table), 0)
  {
    NothingDone(api, ONE_TIMER, t.clock, t.answer, t.script);
    OneTimerFires();
    assert Registers()(0, 0).files == [Create(0, Mask(true, false), 0, 0)];
    TableAfterStep(ONE_TIMER.table, Registers(), [], 0);
    assert [] + [0] == [0];
    CreateRegisters(ONE_TIMER.table);
  }

  lemma OneTimerFires()
    ensures ProperTimerScript(Registers()) && AeTimerSpec.Ordered(ONE_TIMER.timers)
    ensures PassOf(ONE_TIMER, 0, AeTimerSpec.Clock(1, 0), Registers()).fired == [0]
  {
    var s, s' := ONE_TIMER.timers, AeTimerSpec.State([], 1);
    var script, now := TimerPart(Registers()), AeTimerSpec.Clock(1, 0);
    var h := AeTimerSpec.Handler([], AeTimerSpec.NOMORE);
    assert script(0, 0) == h && AeTimerSpec.ApplyAll(s, now, []) == s;
    assert AeTimerSpec.Remove(s.timers, 0) == [];
    AeTimerSpec.PassStep(s, now, 0, script, 0, 0, s');
    AeTimerSpec.FirstRipeIs([], now, 0, 0);
  }

  lemma CreateRegisters(table: seq<FileEvent>)
    requires |table| == 1
    ensures Registered(MasksOf(AfterAll(table, [Create(0, Mask(true, false), 0, 0)])), 0)
  {
    var op := Create(0, Mask(true, false), 0, 0);
    assert [op][..0] == [] && AfterAll(table, []) == table;
    assert AfterAll(table, [op]) == After(table, op);
  }

  class AeLoop {
    const files: EventLoop
    const timers: TimeEvents

    /** The two halves share nothing. */
    ghost predicate Apart()
      reads timers
    {
      timers !in files.Repr() && timers.footprint !! files.Repr()
    }

    ghost predicate Valid()
      reads files.Repr(), timers, timers.footprint
    {
      Apart() && files.Valid() && timers.Valid()
    }

    ghost function Now(): World
      reads files.events, timers
    {
      World(files.Table(), timers.Now(), timers.lastTime)
    }

    /** aeCreateEventLoop */
    constructor (setsize: nat, backend: Backend, time: int)
      ensures Valid() && fresh(files.Repr()) && fresh(timers) && timers.footprint == {}
      ensures Now().timers == AeTimerSpec.State([], 0) && timers.lastTime == time
      ensures |Now().table| == setsize && IsMaxFd(MasksOf(Now().table), -1) && files.maxfd == -1
    {
      hide EventLoop.Valid, TimeEvents.Linked, TimeEvents.Shown, AeTimerSpec.Ordered;
      files := new EventLoop(setsize, backend);
      timers := new TimeEvents(time);
    }

    /** What a callback does. */
    method Perform(fileOps: seq<FileOp>, ops: seq<AeTimerSpec.TimerOp>, now: Clock)
      requires Valid() && AllProper(fileOps)
      modifies files.Repr() - {files.fired}, timers, timers.footprint
      ensures Valid() && files.Table() == AfterAll(old(files.Table()), fileOps)
      ensures timers.Now() == AeTimerSpec.ApplyAll(old(timers.Now()), now, ops)
      ensures timers.lastTime == old(timers.lastTime) && fresh(timers.footprint - old(timers.footprint))
      ensures forall x :: x in old(timers.nodes) && AeTimerSpec.DelTimer(x.id) !in ops ==> x in timers.nodes
    {
      hide AfterAll, AeTimerSpec.ApplyAll, EventLoop.Valid, TimeEvents.Valid;
      files.PerformAll(fileOps);
      timers.PerformAll(ops, now);
    }

    /** The callbacks of one fired event: the table is read again before each one. */
    method Dispatch(index: nat, e: Fired, script: FileScript, n: nat, clock: Clock,
                    ghost table: seq<FileEvent>, ghost s: State)
      returns (calls: seq<Call>)
      requires Valid() && ProperFileScript(script) && AeTimerSpec.Ordered(s)
      requires 0 <= e.fd < files.events.Length == |table|
      requires files.Table() == TableAt(table, FilePart(script), n)
      requires timers.Now() == TimersAt(s, clock, script, n)
      modifies files.Repr() - {files.fired}, timers, timers.footprint
      ensures Valid() && timers.lastTime == old(timers.lastTime)
      ensures fresh(timers.footprint - old(timers.footprint))
      ensures calls == CallsFor(table, FilePart(script), n, index, e)
      ensures files.Table() == TableAt(table, FilePart(script), n + |calls|)
      ensures timers.Now() == TimersAt(s, clock, script, n + |calls|)
    {
      hide AfterAll, AeTimerSpec.ApplyAll, EventLoop.Valid, TimeEvents.Valid, TableAt, TimersAt, ProperFileScript;
      var fd, mask := e.fd, e.mask;
      calls := [];
      if files.events[fd].mask.readable && mask.readable {
        calls := [Call(index, fd, false, files.events[fd].rproc, files.events[fd].data, mask)];
        CallBack(script, n, clock, table, s);
      }
      if files.events[fd].mask.writable && mask.writable {
        if calls == [] || files.events[fd].wproc != files.events[fd].rproc {
          calls := calls + [Call(index, fd, true, files.events[fd].wproc, files.events[fd].data, mask)];
          CallBack(script, n + |calls| - 1, clock, table, s);
        }
      }
    }

    /** The n-th callback of the file half. */
    method CallBack(script: FileScript, n: nat, clock: Clock, ghost table: seq<FileEvent>, ghost s: State)
      requires Valid() && ProperFileScript(script) && AeTimerSpec.Ordered(s) && files.events.Length == |table|
      requires files.Table() == TableAt(table, FilePart(script), n)
      requires timers.Now() == TimersAt(s, clock, script, n)
      modifies files.Repr() - {files.fired}, timers, timers.footprint
      ensures Valid() && timers.lastTime == old(timers.lastTime)
      ensures fresh(timers.footprint - old(timers.footprint))
      ensures files.Table() == TableAt(table, FilePart(script), n + 1)
      ensures timers.Now() == TimersAt(s, clock, script, n + 1)
    {
      hide AfterAll, AeTimerSpec.ApplyAll, EventLoop.Valid, TimeEvents.Valid;
      assert AllProper(FilePart(script)(n));
      Perform(script(n).files, script(n).timers, clock);
    }

    /** One round of the loop below, with the calls made so far. */
    method DispatchNext(index: nat, script: FileScript, before: seq<Call>, clock: Clock,
                        ghost table: seq<FileEvent>, ghost s: State)
      returns (calls: seq<Call>)
      requires Valid() && ProperFileScript(script) && AeTimerSpec.Ordered(s) && index < files.fired.Length
      requires 0 <= files.fired[index].fd < |table| == files.events.Length
      requires files.Table() == TableAt(table, FilePart(script), |before|)
      requires timers.Now() == TimersAt(s, clock, script, |before|)
      modifies files.Repr() - {files.fired}, timers, timers.footprint
      ensures Valid() && timers.lastTime == old(timers.lastTime)
      ensures fresh(timers.footprint - old(timers.footprint))
      ensures calls == before + CallsFor(table, FilePart(script), |before|, index, files.fired[index])
      ensures files.Table() == TableAt(table, FilePart(script), |calls|)
      ensures timers.Now() == TimersAt(s, clock, script, |calls|)
    {
      hide EventLoop.Valid, TimeEvents.Valid, TableAt, TimersAt, CallsFor, ProperFileScript;
      var more := Dispatch(index, files.fired[index], script, |before|, clock, table, s);
      calls := before + more;
    }

    /** The loop of aeProcessEvents over the fired array. */
    method DispatchAll(numevents: nat, script: FileScript, clock: Clock, ghost f: seq<Fired>)
      returns (processed: int, calls: seq<Call>)
      requires Valid() && ProperFileScript(script) && numevents == |f| <= files.fired.Length
      requires files.fired[..numevents] == f && InTable(f, files.events.Length) && AeTimerSpec.Ordered(timers.Now())
      modifies files.Repr() - {files.fired}, timers, timers.footprint
      ensures Valid() && processed == numevents && timers.lastTime == old(timers.lastTime)
      ensures fresh(timers.footprint - old(timers.footprint))
      ensures calls == Calls(old(files.Table()), FilePart(script), f, numevents)
      ensures files.Table() == TableAt(old(files.Table()), FilePart(script), |calls|)
      ensures AeTimerSpec.Ordered(old(timers.Now()))
      ensures timers.Now() == TimersAt(old(timers.Now()), clock, script, |calls|)
    {
      hide EventLoop.Valid, TimeEvents.Valid, TableAt, CallsFor, ProperScript, AeTimerSpec.Ordered, FilePart;
      ghost var table, s := files.Table(), timers.Now();
      StartOfPass(table, s, clock, script);
      processed, calls := 0, [];
      while processed < numevents
        invariant 0 <= processed <= numevents && Valid() && timers.lastTime == old(timers.lastTime)
        invariant fresh(timers.footprint - old(timers.footprint))
        invariant files.fired[..numevents] == f
        invariant calls == Calls(table, FilePart(script), f, processed)
        invariant files.Table() == TableAt(table, FilePart(script), |calls|)
        invariant timers.Now() == TimersAt(s, clock, script, |calls|)
      {
        assert files.fired[processed] == f[processed];
        CallsStep(table, FilePart(script), f, processed, calls, f[processed]);
        calls := DispatchNext(processed, script, calls, clock, table, s);
        processed := processed + 1;
      }
    }

    /** The file half of aeProcessEvents; polls is false when the poll is left out,
        which may happen only when no descriptor is registered. */
    method ProcessFiles(polls: bool, answer: Answer, script: FileScript, clock: Clock)
      returns (processed: int, calls: seq<Call>)
      requires Valid() && ProperFileScript(script) && Possible(files.api, MasksOf(files.Table()), answer)
      requires AeTimerSpec.Ordered(timers.Now()) && (polls || files.maxfd == -1)
      modifies files.Repr(), timers, timers.footprint
      ensures Valid() && fresh(timers.footprint - old(timers.footprint)) && AeTimerSpec.Ordered(old(timers.Now()))
      ensures calls == CallsMade(files.api, old(Now()), answer, script)
      ensures processed == |FiredBy(files.api, MasksOf(old(files.Table())), answer)|
      ensures Now() == AfterFiles(files.api, old(Now()), clock, answer, script)
    {
      hide TimeEvents.Valid, TableAt, TimersAt, Calls, FiredBy, Possible, ProperFileScript;
      hide AeTimerSpec.Ordered, FilePart;
      if polls {
        FiredFits(files.api, MasksOf(files.Table()), answer);
        var numevents := files.Poll(answer);
        processed, calls := DispatchAll(numevents, script, clock, files.fired[..numevents]);
      } else {
        NothingDone(files.api, Now(), clock, answer, script);
        return 0, [];
      }
    }

    /** One due timer: its callback, then putting it off or deleting it. */
    method FireOne(te: TimeEvent, now: Clock, c: TimerCallback)
      requires Valid() && te in timers.nodes && AllProper(c.files)
      requires c.retval != AeTimerSpec.NOMORE ==> AeTimerSpec.DelTimer(te.id) !in c.timers
      modifies files.Repr() - {files.fired}, timers, timers.footprint
      ensures Valid() && timers.lastTime == old(timers.lastTime)
      ensures fresh(timers.footprint - old(timers.footprint))
      ensures files.Table() == AfterAll(old(files.Table()), c.files)
      ensures timers.Now()
              == AeTimerSpec.Fire(old(timers.Now()), now, te.id, AeTimerSpec.Handler(c.timers, c.retval))
    {
      hide AfterAll, AeTimerSpec.ApplyAll, AeTimerSpec.Retime, AeTimerSpec.Remove, EventLoop.Valid, TimeEvents.Valid;
      Perform(c.files, c.timers, now);
      timers.Settle(te, now, c.retval);
    }

    /** Fires the timer at node k, the first that is ripe, as the next callback of the pass. */
    method FireNext(te: TimeEvent, now: Clock, maxId: int, script: TimerScript, fired: seq<int>,
                    ghost k: nat, ghost whole: AeTimerSpec.PassResult, ghost table: seq<FileEvent>)
      returns (fired': seq<int>)
      requires Valid() && k < |timers.nodes| && te == timers.nodes[k]
      requires AeTimerSpec.GoodClock(now) && ProperTimerScript(script) && maxId < timers.nextId
      requires AeTimerSpec.Ripe(timers.timers[k], now, maxId)
      requires forall i :: 0 <= i < k ==> !AeTimerSpec.Ripe(timers.timers[i], now, maxId)
      requires AeTimerSpec.Continues(whole, timers.Now(), now, maxId, TimerPart(script), fired)
      requires files.Table() == TableAfter(table, script, fired)
      modifies files.Repr() - {files.fired}, timers, timers.footprint
      ensures Valid() && maxId < timers.nextId && timers.lastTime == old(timers.lastTime)
      ensures fresh(timers.footprint - old(timers.footprint))
      ensures fired' == fired + [te.id]
      ensures AeTimerSpec.Eligible(timers.timers, now, maxId) < AeTimerSpec.Eligible(old(timers.timers), now, maxId)
      ensures AeTimerSpec.Continues(whole, timers.Now(), now, maxId, TimerPart(script), fired')
      ensures files.Table() == TableAfter(table, script, fired')
    {
      hide AfterAll, AeTimerSpec.Fire, AeTimerSpec.Pass, AeTimerSpec.Continues, AeTimerSpec.Eligible, TableAfter;
      ghost var t := timers.Now();
      assert timers.timers[k].id == te.id;
      TimerCallbackIsProper(script, |fired|, te.id);
      TableAfterStep(table, script, fired, te.id);
      FireOne(te, now, script(|fired|, te.id));
      AeTimerSpec.ContinuesStep(whole, t, now, maxId, TimerPart(script), fired, k, timers.Now());
      fired' := fired + [te.id];
    }

    /** The loop of processTimeEvents, which goes back to the head after every callback. */
    method RunPass(maxId: int, now: Clock, script: TimerScript, ghost whole: AeTimerSpec.PassResult)
      returns (processed: int, fired: seq<int>)
      requires Valid() && AeTimerSpec.GoodClock(now) && ProperTimerScript(script) && maxId < timers.nextId
      requires AeTimerSpec.Continues(whole, timers.Now(), now, maxId, TimerPart(script), [])
      modifies files.Repr() - {files.fired}, timers, timers.footprint
      ensures Valid() && processed == |fired| && timers.lastTime == old(timers.lastTime)
      ensures fresh(timers.footprint - old(timers.footprint))
      ensures whole == AeTimerSpec.PassResult(fired, timers.Now())
      ensures files.Table() == TableAfter(old(files.Table()), script, fired)
    {
      hide AeTimerSpec.Continues, AeTimerSpec.Eligible, AeTimerSpec.ProperScript;
      hide TimerPart, FilesAreProper, EventLoop.Valid;
      ghost var table := files.Table();
      processed, fired := 0, [];
      var te := timers.head;
      ghost var k := 0;
      while te != null
        invariant Valid() && processed == |fired| && timers.lastTime == old(timers.lastTime)
        invariant fresh(timers.footprint - old(timers.footprint))
        invariant 0 <= k <= |timers.nodes| && te == if k < |timers.nodes| then timers.nodes[k] else null
        invariant forall i :: 0 <= i < k ==> !AeTimerSpec.Ripe(timers.timers[i], now, maxId)
        invariant maxId < timers.nextId
        invariant AeTimerSpec.Continues(whole, timers.Now(), now, maxId, TimerPart(script), fired)
        invariant files.Table() == TableAfter(table, script, fired)
        decreases AeTimerSpec.Eligible(timers.timers, now, maxId), |timers.nodes| - k
      {
        assert te == timers.nodes[k];
        if te.id > maxId {
          te := te.next;
          k := k + 1;
        } else if now.sec > te.whenSec || (now.sec == te.whenSec && now.ms >= te.whenMs) {
          fired := FireNext(te, now, maxId, script, fired, k, whole, table);
          processed := processed + 1;
          te, k := timers.head, 0;
        } else {
          te := te.next;
          k := k + 1;
        }
      }
      AeTimerSpec.ContinuesEnd(whole, timers.Now(), now, maxId, TimerPart(script), fired);
    }

    /** processTimeEvents. time is time(NULL), now what aeGetTime reads during the pass. */
    method ProcessTimeEvents(time: int, now: Clock, script: TimerScript) returns (processed: int, fired: seq<int>)
      requires Valid() && AeTimerSpec.GoodClock(now) && ProperTimerScript(script)
      modifies files.Repr() - {files.fired}, timers, timers.footprint
      ensures Valid() && processed == |fired| && fresh(timers.footprint - old(timers.footprint))
      ensures AeTimerSpec.Ordered(old(timers.Now()))
      ensures fired == PassOf(old(Now()), time, now, script).fired
      ensures Now() == AfterTimers(old(Now()), time, now, script)
      ensures AeTimerSpec.Normal(old(timers.Now())) && time >= old(timers.lastTime) ==>
                forall x :: x in fired <==>
                  (exists t :: t in old(timers.timers) && t.id == x
                               && 1000 * t.sec + t.ms <= 1000 * now.sec + now.ms)
                  && !AeTimerSpec.DeletedFirst(fired, TimerPart(script), 0, x)
    {
      hide AeTimerSpec.Pass, AeTimerSpec.Skewed, AeTimerSpec.ProperScript, TimerPart, FilesAreProper, EventLoop.Valid;
      hide AeTimerSpec.Continues, AeTimerSpec.Ordered, TimeEvents.Valid, TableAfter;
      ListIsOrdered(timers);
      if AeTimerSpec.Normal(timers.Now()) && time >= timers.lastTime {
        TimersAreOnTime(Now(), time, now, script);
      }
      hide AeTimerSpec.Normal, AeTimerSpec.DeletedFirst;
      timers.CheckClock(time);
      ListIsOrdered(timers);
      ghost var whole := AeTimerSpec.ContinuesStart(timers.Now(), now, timers.nextId - 1, TimerPart(script));
      processed, fired := RunPass(timers.nextId - 1, now, script, whole);
    }

    /** aeProcessEvents. Without either kind of event in the flags nothing happens.
        Otherwise file events are processed, although the flags may ask for timers
        only, and after them the timers, if the flags ask for them. */
    method ProcessEvents(flags: Flags, t: Turn) returns (processed: int, wait: Wait, calls: seq<Call>, fired: seq<int>)
      requires Valid() && PossibleEvents(files.api, Now(), t)
      modifies files.Repr(), timers, timers.footprint
      ensures Valid() && fresh(timers.footprint - old(timers.footprint)) && AeTimerSpec.Ordered(old(Now()).timers)
      ensures !flags.fileEvents && !flags.timeEvents ==>
                processed == 0 && calls == [] && fired == [] && Now() == old(Now())
      ensures flags.fileEvents || flags.timeEvents ==>
                var left := AfterFiles(files.api, old(Now()), t.clock, t.answer, t.script);
                && calls == CallsMade(files.api, old(Now()), t.answer, t.script)
                && fired == (if flags.timeEvents then PassOf(left, t.time, t.now, t.timerScript).fired else [])
                && processed == |FiredBy(files.api, MasksOf(old(Now()).table), t.answer)| + |fired|
                && Now() == if flags.timeEvents then AfterTimers(left, t.time, t.now, t.timerScript) else left
      ensures flags.timeEvents && !flags.dontWait && AeTimerSpec.Normal(old(timers.Now())) ==>
                WaitsForEarliest(wait, old(timers.timers), t.clock)
      ensures !flags.timeEvents && !flags.dontWait ==> !wait.For?
      ensures wait.For? && flags.dontWait ==> wait == For(0, 0)
    {
      hide AfterFiles, AfterTimers, FiredBy, Possible, PassOf, CallsMade, EventLoop.Valid, TimeEvents.Valid;
      hide AeTimerSpec.Ordered, AeTimerSpec.Normal, ProperFileScript, ProperTimerScript, WaitsExactly;
      ListIsOrdered(timers);
      processed, wait, calls, fired := 0, NoPoll, [], [];
      if !flags.timeEvents && !flags.fileEvents {
        return;
      }
      wait := timers.WaitTime(flags, files.maxfd, t.clock);
      processed, calls := ProcessFiles(wait != NoPoll, t.answer, t.script, t.clock);
      if flags.timeEvents {
        var count;
        count, fired := ProcessTimeEvents(t.time, t.now, t.timerScript);
        processed := processed + count;
      }
    }

    /** One turn of aeMain: beforesleep, and then aeProcessEvents for all events. */
    method OneTurn(t: Turn) returns (wait: Wait)
      requires Valid() && AeTimerSpec.Ordered(Now().timers) && PossibleTurn(files.api, Now(), t)
      modifies files.Repr(), timers, timers.footprint
      ensures Valid() && fresh(timers.footprint - old(timers.footprint)) && AeTimerSpec.Ordered(old(Now()).timers)
      ensures Now() == AfterTurn(files.api, old(Now()), t)
      ensures var polled := AfterCallback(old(Now()), t.clock, t.before);
              AeTimerSpec.Normal(polled.timers) ==> WaitsForEarliest(wait, polled.timers.timers, t.clock)
    {
      hide AfterFiles, AfterTimers, FiredBy, Possible, PassOf, CallsMade, EventLoop.Valid, TimeEvents.Valid;
      hide AeTimerSpec.Normal, ProperFileScript, ProperTimerScript, AfterAll, AeTimerSpec.ApplyAll, WaitsForEarliest;
      Perform(t.before.files, t.before.timers, t.clock);
      var _, w, _, _ := ProcessEvents(Flags(true, true, false), t);
      wait := w;
    }

    /** aeMain: whatever the kernel answers and the callbacks do to table and timers,
        after every turn table, timers and backend are as the reference says. If no
        callback asks for a negative delay, times stay proper, and each of the waits
        ends exactly when the timer that is then the earliest is due. */
    method RunLoop(turns: seq<Turn>) returns (waits: seq<Wait>)
      requires Valid() && AeTimerSpec.Ordered(Now().timers) && PossibleRun(files.api, Now(), turns)
      modifies files.Repr(), timers, timers.footprint
      ensures Valid() && AeTimerSpec.Ordered(old(Now()).timers)
      ensures Now() == AfterRun(files.api, old(Now()), turns) && |waits| == |turns|
      ensures AeTimerSpec.Normal(old(Now()).timers) && (forall i :: 0 <= i < |turns| ==> NoNegativeDelays(turns[i])) ==>
                AeTimerSpec.Normal(Now().timers)
                && forall i :: 0 <= i < |turns| ==>
                     WaitsForEarliest(waits[i], AtWait(files.api, old(Now()), turns, i).timers.timers, turns[i].clock)
    {
      hide AfterTurn, PossibleTurn, AeTimerSpec.Normal, NoNegativeDelays, EventLoop.Valid, TimeEvents.Valid,
        WaitsForEarliest, AfterRun, PossibleRun, AfterCallback;
      ghost var start := Now();
      var i := 0;
      waits := [];
      RunStarts(files.api, start, turns);
      while i < |turns|
        invariant 0 <= i <= |turns| && |waits| == i
        invariant Valid() && fresh(timers.footprint - old(timers.footprint))
        invariant PossibleRun(files.api, start, turns[..i]) && Now() == AfterRun(files.api, start, turns[..i])
        invariant forall j :: 0 <= j < i && AeTimerSpec.Normal(AtWait(files.api, start, turns, j).timers) ==>
                    WaitsForEarliest(waits[j], AtWait(files.api, start, turns, j).timers.timers, turns[j].clock)
      {
        TurnOfRun(files.api, start, turns, i);
        var wait := OneTurn(turns[i]);
        waits := waits + [wait];
        i := i + 1;
      }
      assert turns[..i] == turns;
      if AeTimerSpec.Normal(start.timers) && forall i :: 0 <= i < |turns| ==> NoNegativeDelays(turns[i]) {
        RunKeepsNormal(files.api, start, turns);
        forall j | 0 <= j < |turns| ensures AeTimerSpec.Normal(AtWait(files.api, start, turns, j).timers) {
          WaitsAreNormal(files.api, start, turns, j);
        }
      }
    }
  }

  lemma RunStarts(api: Api, w: World, turns: seq<Turn>)
    requires AeTimerSpec.Ordered(w.timers)
    ensures PossibleRun(api, w, turns[..0]) && AfterRun(api, w, turns[..0]) == w
  {
  }

  lemma ListIsOrdered(timers: TimeEvents)
    requires timers.Valid()
    ensures AeTimerSpec.Ordered(timers.Now())
  {
  }

  lemma StartOfPass(table: seq<FileEvent>, s: State, clock: Clock, script: FileScript)
    requires ProperFileScript(script) && AeTimerSpec.Ordered(s)
    ensures TableAt(table, FilePart(script), 0) == table && TimersAt(s, clock, script, 0) == s
  {
    TableAtStart(table, FilePart(script));
  }

  lemma TimerCallbackIsProper(script: TimerScript, n: nat, id: int)
    requires ProperTimerScript(script)
    ensures var c := script(n, id);
            AllProper(c.files) && (c.retval != AeTimerSpec.NOMORE ==> AeTimerSpec.DelTimer(id) !in c.timers)
  {
    FilesOf(script, n, id);
    assert TimerPart(script)(n, id).retval == script(n, id).retval;
  }
}
