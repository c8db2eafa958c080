/** What one turn of aeMain does to the event table and the timers together, on
    values (Clang/aio/ae/ae.c): callbacks of either kind may change both. */
module AeTurnSpec {
  import opened AeMask
  import opened AeEventLoop
  import opened AeCalls
  import AeTimerSpec

  /** What a callback does. Table and timers are separate, so the order between the
      two lists does not matter. */
  datatype Callback = Callback(files: seq<FileOp>, timers: seq<AeTimerSpec.TimerOp>)

  /** What the callback of a timer does, and answers. */
  datatype TimerCallback = TimerCallback(files: seq<FileOp>, timers: seq<AeTimerSpec.TimerOp>, retval: int)

  /** script(n) is the n-th callback of the file half of a turn. */
  type FileScript = nat -> Callback

  /** script(n, id) is the n-th callback of the timer half, made for timer id. */
  type TimerScript = (nat, int) -> TimerCallback

  ghost function FilePart(script: FileScript): Script {
    (n: nat) => script(n).files
  }

  ghost function TimerPart(script: TimerScript): AeTimerSpec.Script {
    (n: nat, id: int) => AeTimerSpec.Handler(script(n, id).timers, script(n, id).retval)
  }

  ghost predicate ProperFileScript(script: FileScript) {
    ProperScript(FilePart(script))
  }

  ghost predicate ProperTimerScript(script: TimerScript) {
    AeTimerSpec.ProperScript(TimerPart(script)) && FilesAreProper(script)
  }

  ghost predicate FilesAreProper(script: TimerScript) {
    forall n: nat, id: int :: AllProper(script(n, id).files)
  }

  lemma FilesOf(script: TimerScript, n: nat, id: int)
    requires FilesAreProper(script)
    ensures AllProper(script(n, id).files)
  {
  }

  /** The timers when the n-th callback of the file half is made. */
  ghost function TimersAt(s: AeTimerSpec.State, now: AeTimerSpec.Clock, script: FileScript, n: nat)
    : (r: AeTimerSpec.State)
    requires AeTimerSpec.Ordered(s)
    ensures AeTimerSpec.Ordered(r) && s.nextId <= r.nextId
  {
    if n == 0 then s
    else
      var t := TimersAt(s, now, script, n - 1);
      AeTimerSpec.ApplyAllEffect(t, now, t.nextId - 1, script(n - 1).timers);
      AeTimerSpec.ApplyAll(t, now, script(n - 1).timers)
  }

  /** The table after the callbacks of these timers, in this order. */
  ghost function TableAfter(table: seq<FileEvent>, script: TimerScript, fired: seq<int>): (r: seq<FileEvent>)
    requires ProperTimerScript(script)
    ensures |r| == |table|
  {
    if fired == [] then table
    else
      var k: nat := |fired| - 1;
      var c := script(k, fired[k]);
      FilesOf(script, k, fired[k]);
      AfterAll(TableAfter(table, script, fired[..k]), c.files)
  }

  lemma TableAfterStep(table: seq<FileEvent>, script: TimerScript, fired: seq<int>, id: int)
    requires ProperTimerScript(script)
    ensures TableAfter(table, script, fired + [id])
            == AfterAll(TableAfter(table, script, fired), script(|fired|, id).files)
  {
    assert (fired + [id])[..|fired|] == fired;
  }

  /** The event table, the timers, and when timers were last processed. */
  datatype World = World(table: seq<FileEvent>, timers: AeTimerSpec.State, lastTime: int)

  ghost function AfterCallback(w: World, now: AeTimerSpec.Clock, c: Callback): (r: World)
    requires AeTimerSpec.Ordered(w.timers) && AllProper(c.files)
    ensures AeTimerSpec.Ordered(r.timers)
  {
    AeTimerSpec.ApplyAllEffect(w.timers, now, w.timers.nextId - 1, c.timers);
    World(AfterAll(w.table, c.files), AeTimerSpec.ApplyAll(w.timers, now, c.timers), w.lastTime)
  }

  /** The callbacks the file half makes. */
  ghost function CallsMade(api: Api, w: World, answer: Answer, script: FileScript): seq<Call>
    requires ProperFileScript(script) && Possible(api, MasksOf(w.table), answer)
  {
    var f := FiredBy(api, MasksOf(w.table), answer);
    FiredFits(api, MasksOf(w.table), answer);
    Calls(w.table, FilePart(script), f, |f|)
  }

  /** The file half of a turn. */
  ghost function AfterFiles(api: Api, w: World, clock: AeTimerSpec.Clock, answer: Answer, script: FileScript)
    : (r: World)
    requires AeTimerSpec.Ordered(w.timers)
    requires ProperFileScript(script) && Possible(api, MasksOf(w.table), answer)
    ensures AeTimerSpec.Ordered(r.timers) && |r.table| == |w.table| && w.timers.nextId <= r.timers.nextId
  {
    var n := |CallsMade(api, w, answer, script)|;
    World(TableAt(w.table, FilePart(script), n), TimersAt(w.timers, clock, script, n), w.lastTime)
  }

  /** The timers as the timer half finds them: after a step back of the clock they
      are all due. */
  ghost function Found(w: World, time: int): AeTimerSpec.State
    requires AeTimerSpec.Ordered(w.timers)
  {
    if time < w.lastTime then AeTimerSpec.Skewed(w.timers) else w.timers
  }

  ghost function PassOf(w: World, time: int, now: AeTimerSpec.Clock, script: TimerScript): AeTimerSpec.PassResult
    requires AeTimerSpec.Ordered(w.timers) && AeTimerSpec.GoodClock(now) && ProperTimerScript(script)
  {
    AeTimerSpec.Pass(Found(w, time), now, w.timers.nextId - 1, TimerPart(script), 0)
  }

  /** The timer half. */
  ghost function AfterTimers(w: World, time: int, now: AeTimerSpec.Clock, script: TimerScript): (r: World)
    requires AeTimerSpec.Ordered(w.timers) && AeTimerSpec.GoodClock(now) && ProperTimerScript(script)
    ensures AeTimerSpec.Ordered(r.timers)
  {
    var r := PassOf(w, time, now, script);
    AeTimerSpec.PassFiresEachOnce(Found(w, time), now, w.timers.nextId - 1, TimerPart(script), 0);
    World(TableAfter(w.table, script, r.fired), r.state, time)
  }

  /** One turn of aeMain: what beforesleep does, the clock before and during the file
      half, what the kernel answers, what the file callbacks do, the two clocks of the
      timer half, and what the timer callbacks do. */
  datatype Turn = Turn(before: Callback, clock: AeTimerSpec.Clock, answer: Answer, script: FileScript,
                       time: int, now: AeTimerSpec.Clock, timerScript: TimerScript)

  /** What aeProcessEvents is called with, after beforesleep. */
  ghost predicate PossibleEvents(api: Api, w: World, t: Turn) {
    && ProperFileScript(t.script) && ProperTimerScript(t.timerScript)
    && AeTimerSpec.GoodClock(t.clock) && AeTimerSpec.GoodClock(t.now)
    && Possible(api, MasksOf(w.table), t.answer)
  }

  ghost predicate PossibleTurn(api: Api, w: World, t: Turn)
    requires AeTimerSpec.Ordered(w.timers)
  {
    AllProper(t.before.files) && PossibleEvents(api, AfterCallback(w, t.clock, t.before), t)
  }

  ghost function AfterTurn(api: Api, w: World, t: Turn): (r: World)
    requires AeTimerSpec.Ordered(w.timers) && PossibleTurn(api, w, t)
    ensures AeTimerSpec.Ordered(r.timers)
  {
    var polled := AfterCallback(w, t.clock, t.before);
    AfterTimers(AfterFiles(api, polled, t.clock, t.answer, t.script), t.time, t.now, t.timerScript)
  }

  ghost predicate PossibleRun(api: Api, w: World, turns: seq<Turn>)
    requires AeTimerSpec.Ordered(w.timers)
    decreases |turns|, 0
  {
    turns == []
    || (PossibleRun(api, w, turns[..|turns| - 1])
        && PossibleTurn(api, AfterRun(api, w, turns[..|turns| - 1]), turns[|turns| - 1]))
  }

  ghost function AfterRun(api: Api, w: World, turns: seq<Turn>): (r: World)
    requires AeTimerSpec.Ordered(w.timers) && PossibleRun(api, w, turns)
    ensures AeTimerSpec.Ordered(r.timers)
    decreases |turns|, 1
  {
    if turns == [] then w else AfterTurn(api, AfterRun(api, w, turns[..|turns| - 1]), turns[|turns| - 1])
  }

  /** A run is possible only if every turn is, after those before it. */
  lemma {:induction false} TurnOfRun(api: Api, w: World, turns: seq<Turn>, i: nat)
    requires AeTimerSpec.Ordered(w.timers) && PossibleRun(api, w, turns) && i <= |turns|
    ensures PossibleRun(api, w, turns[..i])
    ensures i < |turns| ==>
              var before := AfterRun(api, w, turns[..i]);
              && PossibleTurn(api, before, turns[i]) && PossibleRun(api, w, turns[..i + 1])
              && AfterRun(api, w, turns[..i + 1]) == AfterTurn(api, before, turns[i])
    decreases |turns|
  {
    hide AfterTurn, PossibleTurn;
    if i == |turns| {
      assert turns[..i] == turns;
    } else if i == |turns| - 1 {
      assert turns[..i + 1] == turns;
    } else {
      var init := turns[..|turns| - 1];
      TurnOfRun(api, w, init, i);
      assert init[..i] == turns[..i] && init[..i + 1] == turns[..i + 1];
    }
  }

  /** The world of the i-th turn when its wait is computed. */
  ghost function AtWait(api: Api, w: World, turns: seq<Turn>, i: nat): World
    requires AeTimerSpec.Ordered(w.timers) && PossibleRun(api, w, turns) && i < |turns|
  {
    TurnOfRun(api, w, turns, i);
    AfterCallback(AfterRun(api, w, turns[..i]), turns[i].clock, turns[i].before)
  }

  /** A timer that a file callback of the turn creates is at home in the pass of the
      same turn: if it is due then, it fires exactly when no callback made earlier in
      the pass deletes it. One that a callback of the pass creates does not fire. */
  lemma FileTimerFires(api: Api, w: World, t: Turn, id: int)
    requires AeTimerSpec.Ordered(w.timers) && PossibleTurn(api, w, t)
    ensures var polled := AfterCallback(w, t.clock, t.before);
            var left := AfterFiles(api, polled, t.clock, t.answer, t.script);
            var fired := PassOf(left, t.time, t.now, t.timerScript).fired;
            && (polled.timers.nextId <= id && (exists u :: u in Found(left, t.time).timers && u.id == id
                                                           && AeTimerSpec.Due(u, t.now)) ==>
                  (id in fired <==> !AeTimerSpec.DeletedFirst(fired, TimerPart(t.timerScript), 0, id)))
            && (left.timers.nextId <= id ==> id !in fired)
  {
    var polled := AfterCallback(w, t.clock, t.before);
    var left := AfterFiles(api, polled, t.clock, t.answer, t.script);
    PassFires(left, t.time, t.now, t.timerScript, id);
  }

  lemma PassFires(w: World, time: int, now: AeTimerSpec.Clock, script: TimerScript, id: int)
    requires AeTimerSpec.Ordered(w.timers) && AeTimerSpec.GoodClock(now) && ProperTimerScript(script)
    ensures var fired := PassOf(w, time, now, script).fired;
            && ((exists u :: u in Found(w, time).timers && u.id == id && AeTimerSpec.Due(u, now)) ==>
                  (id in fired <==> !AeTimerSpec.DeletedFirst(fired, TimerPart(script), 0, id)))
            && (w.timers.nextId <= id ==> id !in fired)
  {
    hide AeTimerSpec.Pass;
    var s, maxId := Found(w, time), w.timers.nextId - 1;
    AeTimerSpec.PassFiresEachOnce(s, now, maxId, TimerPart(script), 0);
    AeTimerSpec.EligibleMembers(s.timers, now, maxId, id);
    forall u | u in s.timers ensures u.id <= maxId {
    }
  }

  /** The timer half in milliseconds. Unless the clock has gone back, it fires exactly the
      timers whose time the clock has reached and that no callback made earlier deleted,
      and what it leaves of the timers there were lies ahead of the clock. */
  lemma TimersAreOnTime(w: World, time: int, now: AeTimerSpec.Clock, script: TimerScript)
    requires AeTimerSpec.Ordered(w.timers) && AeTimerSpec.GoodClock(now) && ProperTimerScript(script)
    requires AeTimerSpec.Normal(w.timers) && time >= w.lastTime
    ensures var r := PassOf(w, time, now, script);
            && (forall x :: x in r.fired <==>
                  (exists t :: t in w.timers.timers && t.id == x
                               && 1000 * t.sec + t.ms <= 1000 * now.sec + now.ms)
                  && !AeTimerSpec.DeletedFirst(r.fired, TimerPart(script), 0, x))
            && (forall t :: t in r.state.timers && t.id < w.timers.nextId ==>
                  1000 * now.sec + now.ms < 1000 * t.sec + t.ms)
  {
    var s, maxId, r := w.timers, w.timers.nextId - 1, PassOf(w, time, now, script);
    IdsAreBelow(s);
    AeTimerSpec.PassIsOnTime(s, now, maxId, TimerPart(script), 0);
    hide AeTimerSpec.Pass, AeTimerSpec.DeletedFirst, AeTimerSpec.Ordered, AeTimerSpec.Normal, ProperTimerScript,
      TimerPart;
    forall x ensures x in r.fired <==>
                       (exists t :: t in s.timers && t.id == x && 1000 * t.sec + t.ms <= 1000 * now.sec + now.ms)
                       && !AeTimerSpec.DeletedFirst(r.fired, TimerPart(script), 0, x)
    {
      SameWithBound(s.timers, now, maxId, x);
    }
  }

  lemma IdsAreBelow(s: AeTimerSpec.State)
    requires AeTimerSpec.Ordered(s)
    ensures forall t :: t in s.timers ==> t.id <= s.nextId - 1
  {
  }

  lemma SameWithBound(ts: seq<AeTimerSpec.Timer>, now: AeTimerSpec.Clock, maxId: int, x: int)
    requires forall t :: t in ts ==> t.id <= maxId
    ensures (exists t :: t in ts && t.id == x && 1000 * t.sec + t.ms <= 1000 * now.sec + now.ms)
            <==> (exists t :: t in ts && t.id == x && x <= maxId
                              && 1000 * t.sec + t.ms <= 1000 * now.sec + now.ms)
  {
  }

  /** After a step back of the clock all timers fire, but for those an earlier callback
      deletes, and what is left of them lies ahead of the clock. */
  lemma StepBackFiresAll(w: World, time: int, now: AeTimerSpec.Clock, script: TimerScript)
    requires AeTimerSpec.Ordered(w.timers) && AeTimerSpec.GoodClock(now) && ProperTimerScript(script)
    requires AeTimerSpec.Normal(w.timers) && time < w.lastTime && now.sec >= 1
    ensures var r := PassOf(w, time, now, script);
            && (forall x :: x in r.fired <==>
                  (exists t :: t in w.timers.timers && t.id == x)
                  && !AeTimerSpec.DeletedFirst(r.fired, TimerPart(script), 0, x))
            && (forall t :: t in r.state.timers && t.id < w.timers.nextId ==>
                  1000 * now.sec + now.ms < 1000 * t.sec + t.ms)
  {
    var s, maxId, r := Found(w, time), w.timers.nextId - 1, PassOf(w, time, now, script);
    AeTimerSpec.SkewedIsDue(w.timers, now);
    IdsAreBelow(w.timers);
    AeTimerSpec.PassIsOnTime(s, now, maxId, TimerPart(script), 0);
    hide AeTimerSpec.Pass, AeTimerSpec.DeletedFirst, AeTimerSpec.Skewed, AeTimerSpec.Ordered, AeTimerSpec.Normal,
      ProperTimerScript, TimerPart;
    forall x ensures x in r.fired <==> (exists t :: t in w.timers.timers && t.id == x)
                                       && !AeTimerSpec.DeletedFirst(r.fired, TimerPart(script), 0, x)
    {
      AllAreDue(w.timers.timers, s.timers, now, maxId, x);
    }
  }

  lemma AllAreDue(before: seq<AeTimerSpec.Timer>, after: seq<AeTimerSpec.Timer>, now: AeTimerSpec.Clock, maxId: int,
                  x: int)
    requires |after| == |before| && forall i :: 0 <= i < |before| ==>
               && after[i].id == before[i].id <= maxId
               && 1000 * after[i].sec + after[i].ms <= 1000 * now.sec + now.ms
    ensures (exists t :: t in before && t.id == x)
            <==> (exists t :: t in after && t.id == x && x <= maxId
                              && 1000 * t.sec + t.ms <= 1000 * now.sec + now.ms)
  {
    if t :| t in before && t.id == x {
      var i :| 0 <= i < |before| && before[i] == t;
      assert after[i] in after;
    }
    if u :| u in after && u.id == x {
      var i :| 0 <= i < |after| && after[i] == u;
      assert before[i] in before;
    }
  }

  /** No callback asks for a timer with a negative delay. */
  ghost predicate NoNegativeDelays(t: Turn) {
    && AeTimerSpec.NoNegativeDelay(t.before.timers)
    && (forall n: nat :: AeTimerSpec.NoNegativeDelay(t.script(n).timers))
    && forall n: nat, id :: AeTimerSpec.NoNegativeDelay(t.timerScript(n, id).timers)
  }

  lemma {:induction false} TimersAtNormal(s: AeTimerSpec.State, now: AeTimerSpec.Clock, script: FileScript, n: nat)
    requires AeTimerSpec.Ordered(s) && AeTimerSpec.Normal(s) && AeTimerSpec.GoodClock(now)
    requires forall m: nat :: AeTimerSpec.NoNegativeDelay(script(m).timers)
    ensures AeTimerSpec.Normal(TimersAt(s, now, script, n))
  {
    if n > 0 {
      TimersAtNormal(s, now, script, n - 1);
      AeTimerSpec.ApplyAllNormal(TimersAt(s, now, script, n - 1), now, script(n - 1).timers);
    }
  }

  /** A turn keeps the times of the timers proper clock readings, so the wait of the
      next turn is exact. */
  lemma TurnKeepsNormal(api: Api, w: World, t: Turn)
    requires AeTimerSpec.Ordered(w.timers) && PossibleTurn(api, w, t) && NoNegativeDelays(t)
    requires AeTimerSpec.Normal(w.timers)
    ensures AeTimerSpec.Normal(AfterTurn(api, w, t).timers)
  {
    hide AeTimerSpec.Pass, AeTimerSpec.ApplyAll, TimersAt;
    var polled := AfterCallback(w, t.clock, t.before);
    BeforeKeepsNormal(api, w, t);
    var n := |CallsMade(api, polled, t.answer, t.script)|;
    TimersAtNormal(polled.timers, t.clock, t.script, n);
    var left := AfterFiles(api, polled, t.clock, t.answer, t.script);
    PassNormal(left, t.time, t.now, t.timerScript);
  }

  lemma PassNormal(w: World, time: int, now: AeTimerSpec.Clock, script: TimerScript)
    requires AeTimerSpec.Ordered(w.timers) && AeTimerSpec.GoodClock(now) && ProperTimerScript(script)
    requires AeTimerSpec.Normal(w.timers) && forall n: nat, id :: AeTimerSpec.NoNegativeDelay(script(n, id).timers)
    ensures AeTimerSpec.Normal(AfterTimers(w, time, now, script).timers)
  {
    AeTimerSpec.PassKeepsNormal(w.timers, now, w.timers.nextId - 1, TimerPart(script), 0);
    AeTimerSpec.PassKeepsNormal(Found(w, time), now, w.timers.nextId - 1, TimerPart(script), 0);
  }

  lemma {:induction false} RunKeepsNormal(api: Api, w: World, turns: seq<Turn>)
    requires AeTimerSpec.Ordered(w.timers) && PossibleRun(api, w, turns) && AeTimerSpec.Normal(w.timers)
    requires forall i :: 0 <= i < |turns| ==> NoNegativeDelays(turns[i])
    ensures AeTimerSpec.Normal(AfterRun(api, w, turns).timers)
    decreases |turns|
  {
    hide AfterTurn, PossibleTurn, AeTimerSpec.Normal, NoNegativeDelays;
    if turns != [] {
      var init := turns[..|turns| - 1];
      RunKeepsNormal(api, w, init);
      TurnKeepsNormal(api, AfterRun(api, w, init), turns[|turns| - 1]);
    }
  }

  /** So they are proper at every wait of the run. */
  lemma WaitsAreNormal(api: Api, w: World, turns: seq<Turn>, i: nat)
    requires AeTimerSpec.Ordered(w.timers) && PossibleRun(api, w, turns) && AeTimerSpec.Normal(w.timers)
    requires i < |turns| && forall j :: 0 <= j < |turns| ==> NoNegativeDelays(turns[j])
    ensures AeTimerSpec.Normal(AtWait(api, w, turns, i).timers)
  {
    hide AfterTurn, AeTimerSpec.Normal, NoNegativeDelays, AfterRun, PossibleRun, PossibleTurn, AfterCallback;
    hide AeTimerSpec.Ordered;
    TurnOfRun(api, w, turns, i);
    assert forall j :: 0 <= j < i ==> turns[..i][j] == turns[j];
    RunKeepsNormal(api, w, turns[..i]);
    BeforeKeepsNormal(api, AfterRun(api, w, turns[..i]), turns[i]);
  }

  lemma BeforeKeepsNormal(api: Api, w: World, t: Turn)
    requires AeTimerSpec.Ordered(w.timers) && PossibleTurn(api, w, t) && NoNegativeDelays(t)
    requires AeTimerSpec.Normal(w.timers)
    ensures AeTimerSpec.Normal(AfterCallback(w, t.clock, t.before).timers)
  {
    hide AeTimerSpec.ApplyAll, AfterAll, AeTimerSpec.Normal;
    AeTimerSpec.ApplyAllNormal(w.timers, t.clock, t.before.timers);
  }
}
