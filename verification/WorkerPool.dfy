/** The worker pool of python/multithreading.py as a protocol: any number of
    worker threads, one bounded queue, producers, and the thread that leaves the
    context. One step is one atomic action of one thread. */
module WorkerPool {

  type Item = nat
  type Value = int

  datatype Message = Work(item: Item) | StopWorkerThreadSignal

  datatype Activity = Idle | Calling(item: Item) | Dead

  /** A QueueFunctionThread: what it is doing, the exceptions it has stored
      with the items that raised them, and the stop signals it has taken. */
  datatype Worker = Worker(activity: Activity, excInfos: seq<(Item, Value)>, stops: nat)

  /** Where the thread that uses the context is: inside it; in __exit__ with so
      many stop signals still to put; waiting for the threads; reporting the
      exceptions; through. */
  datatype Phase = Inside | Stopping(toPut: nat) | Waiting | Reporting(reported: nat) | Through

  /** queued is everything producers have put, taken everything given to func,
      both in order; these two are history. errorCounter is None when no
      counter was supplied. */
  datatype Pool = Pool(
    capacity: nat,
    queue: seq<Message>,
    workers: seq<Worker>,
    results: seq<(Item, Value)>,
    phase: Phase,
    errorCounter: Option,
    queued: seq<Item>,
    taken: seq<Item>)

  datatype Option = None | Some(value: int)

  predicate Alive(w: Worker) {
    w.activity != Dead
  }

  /** The number of live workers. */
  function Living(ws: seq<Worker>): nat {
    if ws == [] then 0 else (if Alive(ws[0]) then 1 else 0) + Living(ws[1..])
  }

  function Busy(ws: seq<Worker>): nat {
    if ws == [] then 0 else (if ws[0].activity.Calling? then 1 else 0) + Busy(ws[1..])
  }

  /** The number of stored exceptions. */
  function Exceptions(ws: seq<Worker>): nat {
    if ws == [] then 0 else |ws[0].excInfos| + Exceptions(ws[1..])
  }

  function Firsts(pairs: seq<(Item, Value)>): multiset<Item> {
    if pairs == [] then multiset{} else Firsts(pairs[..|pairs| - 1]) + multiset{pairs[|pairs| - 1].0}
  }

  /** The items a worker has been given and not turned into a result. */
  function Held(w: Worker): multiset<Item> {
    Firsts(w.excInfos) + if w.activity.Calling? then multiset{w.activity.item} else multiset{}
  }

  function HeldByAll(ws: seq<Worker>): multiset<Item> {
    if ws == [] then multiset{} else Held(ws[0]) + HeldByAll(ws[1..])
  }

  function Items(q: seq<Message>): seq<Item> {
    if q == [] then [] else (if q[0].Work? then [q[0].item] else []) + Items(q[1..])
  }

  function Signals(q: seq<Message>): nat {
    if q == [] then 0 else (if q[0].Work? then 0 else 1) + Signals(q[1..])
  }

  /** Work items first, stop signals last. */
  ghost predicate WorkFirst(q: seq<Message>) {
    forall i, j :: 0 <= i < j < |q| && q[j].Work? ==> q[i].Work?
  }

  /** __enter__ has started n threads. */
  ghost predicate Init(s: Pool, n: nat) {
    && s.capacity > 0 && s.queue == [] && s.results == [] && s.phase == Inside
    && s.queued == [] && s.taken == []
    && |s.workers| == n && forall i :: 0 <= i < n ==> s.workers[i] == Worker(Idle, [], 0)
  }

  datatype Action =
    | Put(item: Item)
    | BeginExit
    | PutStop
    | EndStops
    | Get(w: nat)
    | Return(w: nat, value: Value)
    | Raise(w: nat, exc: Value)
    | AllDead
    | Report
    | EndReport

  /** When an action can be taken: put blocks on a full queue, get on an empty one. */
  predicate Enabled(s: Pool, a: Action) {
    match a
    case Put(_) => s.phase == Inside && |s.queue| < s.capacity
    case BeginExit => s.phase == Inside
    case PutStop => s.phase.Stopping? && s.phase.toPut > 0 && |s.queue| < s.capacity
    case EndStops => s.phase == Stopping(0)
    case Get(w) => w < |s.workers| && s.workers[w].activity == Idle && s.queue != []
    case Return(w, _) => w < |s.workers| && s.workers[w].activity.Calling?
    case Raise(w, _) => w < |s.workers| && s.workers[w].activity.Calling?
    case AllDead => s.phase == Waiting && forall i :: 0 <= i < |s.workers| ==> !Alive(s.workers[i])
    case Report => s.phase.Reporting? && s.phase.reported < Exceptions(s.workers)
    case EndReport => s.phase == Reporting(Exceptions(s.workers))
  }

  function Next(s: Pool, a: Action): Pool
    requires Enabled(s, a)
  {
    match a
    case Put(x) => s.(queue := s.queue + [Work(x)], queued := s.queued + [x])
    case BeginExit => s.(phase := Stopping(Living(s.workers)))
    case PutStop => s.(queue := s.queue + [StopWorkerThreadSignal], phase := Stopping(s.phase.toPut - 1))
    case EndStops => s.(phase := Waiting)
    case Get(w) =>
      var worker := s.workers[w];
      (match s.queue[0]
       case Work(x) =>
         s.(queue := s.queue[1..], workers := s.workers[w := worker.(activity := Calling(x))], taken := s.taken + [x])
       case StopWorkerThreadSignal =>
         s.(queue := s.queue[1..], workers := s.workers[w := worker.(activity := Dead, stops := worker.stops + 1)]))
    case Return(w, v) =>
      var worker := s.workers[w];
      s.(workers := s.workers[w := worker.(activity := Idle)], results := s.results + [(worker.activity.item, v)])
    case Raise(w, e) =>
      var worker := s.workers[w];
      var infos := worker.excInfos + [(worker.activity.item, e)];
      s.(workers := s.workers[w := worker.(activity := Idle, excInfos := infos)])
    case AllDead => s.(phase := Reporting(0))
    case Report =>
      s.(phase := Reporting(s.phase.reported + 1),
         errorCounter := if s.errorCounter.Some? then Some(s.errorCounter.value + 1) else None)
    case EndReport => s.(phase := Through)
  }

  /** The queue and what has been taken from it are, in order, what was put. */
  ghost predicate Fifo(s: Pool) {
    s.taken + Items(s.queue) == s.queued
  }

  /** What was given to func is, item for item, in the results, in the stored
      exceptions, or being worked on. */
  ghost predicate Accounted(s: Pool) {
    multiset(s.taken) == Firsts(s.results) + HeldByAll(s.workers)
  }

  ghost predicate NumbersAgree(s: Pool) {
    |s.taken| == |s.results| + Exceptions(s.workers) + Busy(s.workers)
  }

  /** There is one stop signal for each live worker, in the queue or to come. */
  ghost predicate OneSignalEach(s: Pool) {
    && WorkFirst(s.queue)
    && (forall i :: 0 <= i < |s.workers| ==> s.workers[i].stops == if Alive(s.workers[i]) then 0 else 1)
    && (s.phase == Inside ==> Signals(s.queue) == 0 && Living(s.workers) == |s.workers|)
    && (s.phase.Stopping? ==> Signals(s.queue) + s.phase.toPut == Living(s.workers))
    && (s.phase == Waiting ==> Signals(s.queue) == Living(s.workers))
    && (s.phase.Reporting? || s.phase == Through ==> Signals(s.queue) == 0 == Living(s.workers))
    && (s.phase.Reporting? ==> s.phase.reported <= Exceptions(s.workers))
  }

  /** Once the last worker is gone nothing is left to do. */
  ghost predicate NoWorkLeft(s: Pool) {
    s.workers != [] && s.phase != Inside && Living(s.workers) == 0 ==> Items(s.queue) == []
  }

  /** The counter has been raised once for every exception reported. */
  ghost predicate Counted(s: Pool, counter: Option) {
    var reported := match s.phase case Reporting(n) => n case Through => Exceptions(s.workers) case _ => 0;
    s.errorCounter == if counter.Some? then Some(counter.value + reported) else None
  }

  ghost predicate Inv(s: Pool, counter: Option) {
    && s.capacity > 0
    && Fifo(s) && Accounted(s) && NumbersAgree(s) && OneSignalEach(s) && NoWorkLeft(s) && Counted(s, counter)
  }

  lemma {:induction false} ItemsAppend(q: seq<Message>, m: Message)
    ensures Items(q + [m]) == Items(q) + if m.Work? then [m.item] else []
  {
    if q == [] {
      assert Items([m]) == Items([]) + if m.Work? then [m.item] else [];
    } else {
      ItemsAppend(q[1..], m);
      assert (q + [m])[1..] == q[1..] + [m];
    }
  }

  lemma {:induction false} SignalsAppend(q: seq<Message>, m: Message)
    ensures Signals(q + [m]) == Signals(q) + if m.Work? then 0 else 1
  {
    if q == [] {
      assert [m][1..] == [];
    } else {
      SignalsAppend(q[1..], m);
      assert (q + [m])[1..] == q[1..] + [m];
    }
  }

  /** Changing one worker changes the totals by the change of that worker. */
  lemma {:induction false} TotalsUpdate(ws: seq<Worker>, i: nat, w: Worker)
    requires i < |ws|
    ensures Living(ws[i := w]) + (if Alive(ws[i]) then 1 else 0) == Living(ws) + if Alive(w) then 1 else 0
    ensures Busy(ws[i := w]) + (if ws[i].activity.Calling? then 1 else 0)
            == Busy(ws) + if w.activity.Calling? then 1 else 0
    ensures Exceptions(ws[i := w]) + |ws[i].excInfos| == Exceptions(ws) + |w.excInfos|
  {
    if i > 0 {
      TotalsUpdate(ws[1..], i - 1, w);
      assert ws[i := w][1..] == ws[1..][i - 1 := w];
    } else {
      assert ws[0 := w][1..] == ws[1..];
    }
  }

  lemma {:induction false} HeldUpdate(ws: seq<Worker>, i: nat, w: Worker)
    requires i < |ws|
    ensures HeldByAll(ws[i := w]) + Held(ws[i]) == HeldByAll(ws) + Held(w)
  {
    if i > 0 {
      HeldUpdate(ws[1..], i - 1, w);
      assert ws[i := w][1..] == ws[1..][i - 1 := w];
      HeldCons(ws);
      HeldCons(ws[i := w]);
      Regroup(Held(ws[0]), HeldByAll(ws[1..][i - 1 := w]), Held(ws[i]), HeldByAll(ws[1..]), Held(w));
    } else {
      assert ws[0 := w][1..] == ws[1..];
      HeldCons(ws);
      HeldCons(ws[0 := w]);
      Regroup(HeldByAll(ws[1..]), Held(w), Held(ws[0]), Held(ws[0]), Held(w));
    }
  }

  lemma HeldCons(ws: seq<Worker>)
    requires ws != []
    ensures HeldByAll(ws) == Held(ws[0]) + HeldByAll(ws[1..])
  {
  }

  lemma Regroup(a: multiset<Item>, b: multiset<Item>, c: multiset<Item>, d: multiset<Item>, e: multiset<Item>)
    requires b + c == d + e
    ensures (a + b) + c == (a + d) + e && (b + a) + c == (d + a) + e
  {
    assert (a + b) + c == a + (b + c) && (a + d) + e == a + (d + e);
    assert (b + a) + c == a + (b + c) && (d + a) + e == a + (d + e);
  }

  lemma FirstsAppend(pairs: seq<(Item, Value)>, p: (Item, Value))
    ensures Firsts(pairs + [p]) == Firsts(pairs) + multiset{p.0}
  {
    assert (pairs + [p])[..|pairs|] == pairs;
  }

  lemma {:induction false} StartTotals(ws: seq<Worker>)
    requires forall i :: 0 <= i < |ws| ==> ws[i] == Worker(Idle, [], 0)
    ensures Living(ws) == |ws| && Busy(ws) == 0 == Exceptions(ws) && HeldByAll(ws) == multiset{}
  {
    if ws != [] {
      StartTotals(ws[1..]);
    }
  }

  /** There is a live worker exactly when the number of live workers is not 0. */
  lemma {:induction false} SomeoneLives(ws: seq<Worker>)
    ensures Living(ws) == 0 <==> forall i :: 0 <= i < |ws| ==> !Alive(ws[i])
  {
    if ws != [] {
      SomeoneLives(ws[1..]);
      assert forall i :: 0 <= i < |ws| - 1 ==> ws[1..][i] == ws[i + 1];
      assert Living(ws) == 0 ==> forall i :: 1 <= i < |ws| ==> ws[i] == ws[1..][i - 1];
    }
  }

  /** A queue that begins with a stop signal holds no work. */
  lemma {:induction false} OnlySignals(q: seq<Message>)
    requires WorkFirst(q) && q != [] && !q[0].Work?
    ensures Items(q) == [] && Signals(q) == |q|
  {
    if |q| > 1 {
      assert !q[1].Work?;
      OnlySignals(q[1..]);
    }
  }

  lemma {:induction false} Sizes(q: seq<Message>)
    ensures |Items(q)| + Signals(q) == |q|
  {
    if q != [] {
      Sizes(q[1..]);
    }
  }

  lemma InitHolds(s: Pool, n: nat)
    requires Init(s, n)
    ensures Inv(s, s.errorCounter)
  {
    StartTotals(s.workers);
  }

  lemma FifoStep(s: Pool, a: Action)
    requires Fifo(s) && Enabled(s, a)
    ensures Fifo(Next(s, a))
  {
    match a
    case Put(x) =>
      ItemsAppend(s.queue, Work(x));
      assert s.taken + (Items(s.queue) + [x]) == (s.taken + Items(s.queue)) + [x];
    case PutStop => ItemsAppend(s.queue, StopWorkerThreadSignal);
    case Get(w) =>
      if s.queue[0].Work? {
        var x := s.queue[0].item;
        assert (s.taken + [x]) + Items(s.queue[1..]) == s.taken + ([x] + Items(s.queue[1..]));
      }
    case _ =>
  }

  /** A worker that gains or loses an item changes what all hold by that item. */
  lemma HeldGain(ws: seq<Worker>, w: nat, worker: Worker, x: Item)
    requires w < |ws| && Held(worker) == Held(ws[w]) + multiset{x}
    ensures HeldByAll(ws[w := worker]) == HeldByAll(ws) + multiset{x}
  {
    HeldUpdate(ws, w, worker);
    Cancel(HeldByAll(ws[w := worker]), Held(ws[w]), HeldByAll(ws), multiset{x});
  }

  lemma HeldLoss(ws: seq<Worker>, w: nat, worker: Worker, x: Item)
    requires w < |ws| && Held(ws[w]) == Held(worker) + multiset{x}
    ensures HeldByAll(ws) == HeldByAll(ws[w := worker]) + multiset{x}
  {
    HeldUpdate(ws, w, worker);
    Cancel(HeldByAll(ws), Held(worker), HeldByAll(ws[w := worker]), multiset{x});
  }

  lemma HeldSame(ws: seq<Worker>, w: nat, worker: Worker)
    requires w < |ws| && Held(ws[w]) == Held(worker)
    ensures HeldByAll(ws) == HeldByAll(ws[w := worker])
  {
    HeldUpdate(ws, w, worker);
    Cancel(HeldByAll(ws), Held(worker), HeldByAll(ws[w := worker]), multiset{});
  }

  lemma Cancel(a: multiset<Item>, b: multiset<Item>, c: multiset<Item>, d: multiset<Item>)
    requires a + b == c + (b + d)
    ensures a == c + d
  {
    assert a == (a + b) - b && c + d == (c + (b + d)) - b;
  }

  lemma AccountedStep(s: Pool, a: Action)
    requires Accounted(s) && Enabled(s, a)
    ensures Accounted(Next(s, a))
  {
    match a
    case Get(w) =>
      if s.queue[0].Work? {
        TakenGrows(s, w, s.queue[0].item);
      } else {
        StopAccounted(s, w);
      }
    case Return(w, v) => ReturnAccounted(s, w, v);
    case Raise(w, e) => RaiseAccounted(s, w, e);
    case _ =>
  }

  lemma StopAccounted(s: Pool, w: nat)
    requires Accounted(s) && Enabled(s, Get(w)) && s.queue[0] == StopWorkerThreadSignal
    ensures Accounted(Next(s, Get(w)))
  {
    var after := s.workers[w].(activity := Dead, stops := s.workers[w].stops + 1);
    HeldAtStop(s.workers[w]);
    StillAccounted(s, Next(s, Get(w)), w, after);
  }

  lemma HeldAtStop(worker: Worker)
    requires worker.activity == Idle
    ensures Held(worker) == Held(worker.(activity := Dead, stops := worker.stops + 1))
  {
  }

  lemma StillAccounted(s: Pool, s': Pool, w: nat, after: Worker)
    requires Accounted(s) && w < |s.workers| && Held(s.workers[w]) == Held(after)
    requires s'.workers == s.workers[w := after] && s'.taken == s.taken && s'.results == s.results
    ensures Accounted(s')
  {
    hide Held, Firsts, HeldByAll;
    HeldSame(s.workers, w, after);
  }

  lemma RaiseAccounted(s: Pool, w: nat, e: Value)
    requires Accounted(s) && Enabled(s, Raise(w, e))
    ensures Accounted(Next(s, Raise(w, e)))
  {
    var worker := s.workers[w];
    var x := worker.activity.item;
    FirstsAppend(worker.excInfos, (x, e));
    HeldSame(s.workers, w, worker.(activity := Idle, excInfos := worker.excInfos + [(x, e)]));
  }

  lemma TakenGrows(s: Pool, w: nat, x: Item)
    requires Accounted(s) && Enabled(s, Get(w)) && s.queue[0] == Work(x)
    ensures Accounted(Next(s, Get(w)))
  {
    HeldGain(s.workers, w, s.workers[w].(activity := Calling(x)), x);
    assert multiset(s.taken + [x]) == multiset(s.taken) + multiset{x};
  }

  lemma ReturnAccounted(s: Pool, w: nat, v: Value)
    requires Accounted(s) && Enabled(s, Return(w, v))
    ensures Accounted(Next(s, Return(w, v)))
  {
    var x := s.workers[w].activity.item;
    FirstsAppend(s.results, (x, v));
    HeldLoss(s.workers, w, s.workers[w].(activity := Idle), x);
  }

  lemma NumbersStep(s: Pool, a: Action)
    requires NumbersAgree(s) && Enabled(s, a)
    ensures NumbersAgree(Next(s, a))
  {
    match a
    case Get(w) => TotalsUpdate(s.workers, w, Next(s, a).workers[w]);
    case Return(w, _) => TotalsUpdate(s.workers, w, Next(s, a).workers[w]);
    case Raise(w, _) => TotalsUpdate(s.workers, w, Next(s, a).workers[w]);
    case _ =>
  }

  lemma SignalsStep(s: Pool, a: Action)
    requires OneSignalEach(s) && Enabled(s, a)
    ensures OneSignalEach(Next(s, a))
  {
    match a
    case Put(x) => PutSignals(s, x);
    case PutStop => SignalsAppend(s.queue, StopWorkerThreadSignal);
    case Get(w) => GetSignals(s, w);
    case Return(w, _) => FinishSignals(s, a, w);
    case Raise(w, _) => FinishSignals(s, a, w);
    case AllDead => SomeoneLives(s.workers);
    case _ =>
  }

  lemma GetSignals(s: Pool, w: nat)
    requires OneSignalEach(s) && Enabled(s, Get(w))
    ensures OneSignalEach(Next(s, Get(w)))
  {
    TotalsUpdate(s.workers, w, Next(s, Get(w)).workers[w]);
  }

  lemma FinishSignals(s: Pool, a: Action, w: nat)
    requires OneSignalEach(s) && Enabled(s, a) && ((a.Return? && a.w == w) || (a.Raise? && a.w == w))
    ensures OneSignalEach(Next(s, a))
  {
    TotalsUpdate(s.workers, w, Next(s, a).workers[w]);
    LivesAt(s.workers, w);
  }

  lemma PutSignals(s: Pool, x: Item)
    requires OneSignalEach(s) && Enabled(s, Put(x))
    ensures OneSignalEach(Next(s, Put(x)))
  {
    SignalsAppend(s.queue, Work(x));
    forall i | 0 <= i < |s.queue| ensures s.queue[i].Work? {
      NoSignals(s.queue, i);
    }
  }

  lemma {:induction false} NoSignals(q: seq<Message>, i: nat)
    requires Signals(q) == 0 && i < |q|
    ensures q[i].Work?
  {
    if i > 0 {
      NoSignals(q[1..], i - 1);
    }
  }

  lemma LivesAt(ws: seq<Worker>, w: nat)
    requires w < |ws| && Alive(ws[w])
    ensures Living(ws) > 0
  {
    SomeoneLives(ws);
  }

  lemma NoWorkStep(s: Pool, a: Action)
    requires OneSignalEach(s) && NoWorkLeft(s) && Enabled(s, a)
    ensures NoWorkLeft(Next(s, a))
  {
    match a
    case PutStop => ItemsAppend(s.queue, StopWorkerThreadSignal);
    case BeginExit => SomeoneLives(s.workers);
    case Get(w) =>
      TotalsUpdate(s.workers, w, Next(s, a).workers[w]);
      LivesAt(s.workers, w);
      if !s.queue[0].Work? {
        OnlySignals(s.queue);
      }
    case Return(w, _) =>
      TotalsUpdate(s.workers, w, Next(s, a).workers[w]);
      LivesAt(s.workers, w);
    case Raise(w, _) =>
      TotalsUpdate(s.workers, w, Next(s, a).workers[w]);
      LivesAt(s.workers, w);
    case _ =>
  }

  lemma CountedStep(s: Pool, a: Action, counter: Option)
    requires OneSignalEach(s) && Counted(s, counter) && Enabled(s, a)
    ensures Counted(Next(s, a), counter)
  {
    match a
    case Get(w) => LivesAt(s.workers, w);
    case Return(w, _) => LivesAt(s.workers, w);
    case Raise(w, _) => LivesAt(s.workers, w);
    case _ =>
  }

  /** Every action of every thread keeps the invariant. */
  lemma StepKeeps(s: Pool, a: Action, counter: Option)
    requires Inv(s, counter) && Enabled(s, a)
    ensures Inv(Next(s, a), counter)
  {
    FifoStep(s, a);
    AccountedStep(s, a);
    NumbersStep(s, a);
    SignalsStep(s, a);
    NoWorkStep(s, a);
    CountedStep(s, a, counter);
  }

  /** No run gets stuck: before the end, some thread can act. Inside the
      context that is always so for a thread that leaves it; for one that puts, see
      PutIsNotStuck. */
  lemma NeverStuck(s: Pool, counter: Option) returns (a: Action)
    requires Inv(s, counter) && s.phase != Through
    ensures Enabled(s, a)
  {
    SomeoneLives(s.workers);
    Sizes(s.queue);
    match s.phase
    case Inside => a := BeginExit;
    case Stopping(k) =>
      if k == 0 {
        a := EndStops;
      } else if |s.queue| < s.capacity {
        a := PutStop;
      } else {
        a := SomeWorkerActs(s);
      }
    case Waiting =>
      if Living(s.workers) == 0 {
        a := AllDead;
      } else {
        a := SomeWorkerActs(s);
      }
    case Reporting(n) => a := if n < Exceptions(s.workers) then Report else EndReport;
  }

  lemma SomeWorkerActs(s: Pool) returns (a: Action)
    requires Living(s.workers) > 0 && s.queue != []
    ensures Enabled(s, a) && WorkerActs(a)
  {
    SomeoneLives(s.workers);
    var w :| 0 <= w < |s.workers| && Alive(s.workers[w]);
    a := if s.workers[w].activity == Idle then Get(w) else Return(w, 0);
  }

  /** What a thread of the pool does, rather than the one that uses it. */
  predicate WorkerActs(a: Action) {
    a.Get? || a.Return? || a.Raise?
  }

  /** A thread that wants to put an item, inside the context, is not blocked for
      ever: it can put it, or some worker can act, exactly when there is a worker or
      room in the queue. */
  lemma PutIsNotStuck(s: Pool, counter: Option, x: Item)
    requires Inv(s, counter) && s.phase == Inside
    ensures (Enabled(s, Put(x)) || exists a :: WorkerActs(a) && Enabled(s, a))
            <==> s.workers != [] || |s.queue| < s.capacity
  {
    if s.workers != [] && |s.queue| >= s.capacity {
      var a := SomeWorkerActs(s);
      assert WorkerActs(a) && Enabled(s, a);
    }
  }

  /** While the queue is full, workers do not go on for long without taking from it:
      in any run of worker steps longer than the number of calls under way at its
      start, a slot is freed. */
  lemma SlotIsFreed(run: seq<Pool>, actions: seq<Action>)
    requires IsRun(run, actions) && forall i :: 0 <= i < |actions| ==> WorkerActs(actions[i])
    requires |actions| > Busy(run[0].workers)
    ensures |run[|actions|].queue| < |run[0].queue|
  {
    WorkersTake(run, actions, |actions|);
  }

  lemma {:induction false} WorkersTake(run: seq<Pool>, actions: seq<Action>, k: nat)
    requires IsRun(run, actions) && (forall i :: 0 <= i < |actions| ==> WorkerActs(actions[i])) && k < |run|
    ensures |run[k].queue| <= |run[0].queue|
    ensures Busy(run[k].workers) + k <= Busy(run[0].workers) + 2 * (|run[0].queue| - |run[k].queue|)
  {
    if k > 0 {
      WorkersTake(run, actions, k - 1);
      WorkerStep(run[k - 1], actions[k - 1]);
    }
  }

  lemma WorkerStep(s: Pool, a: Action)
    requires WorkerActs(a) && Enabled(s, a)
    ensures var s' := Next(s, a);
            && |s'.queue| == |s.queue| - (if a.Get? then 1 else 0)
            && Busy(s'.workers) + 1 <= Busy(s.workers) + if a.Get? then 2 else 0
  {
    TotalsUpdate(s.workers, a.w, Next(s, a).workers[a.w]);
  }

  /** What is still to be done once the exit has begun. */
  function ToDo(s: Pool): nat {
    3 * (if s.phase.Stopping? then s.phase.toPut else 0)
    + 2 * |s.queue| + 2 * Busy(s.workers) + |Items(s.queue)|
    + (match s.phase
       case Reporting(n) => if n <= Exceptions(s.workers) then Exceptions(s.workers) - n else 0
       case Through => 0
       case _ => Exceptions(s.workers))
    + (match s.phase case Inside => 4 case Stopping(_) => 3 case Waiting => 2 case Reporting(_) => 1 case Through => 0)
  }

  /** Once the exit has begun, every action of any thread leaves less to do, so
      every run ends; it cannot end before the exit is through (NeverStuck). */
  lemma ExitProgresses(s: Pool, a: Action, counter: Option)
    requires Inv(s, counter) && Enabled(s, a) && s.phase != Inside
    ensures Next(s, a).phase != Inside && ToDo(Next(s, a)) < ToDo(s)
  {
    hide Fifo, Accounted, Counted;
    var s' := Next(s, a);
    match a
    case PutStop => ItemsAppend(s.queue, StopWorkerThreadSignal);
    case Get(w) => TotalsUpdate(s.workers, w, s'.workers[w]);
    case Return(w, _) =>
      TotalsUpdate(s.workers, w, s'.workers[w]);
      LivesAt(s.workers, w);
    case Raise(w, _) =>
      TotalsUpdate(s.workers, w, s'.workers[w]);
      LivesAt(s.workers, w);
    case _ =>
  }

  /** A run: each state follows from the one before by some action. */
  ghost predicate IsRun(run: seq<Pool>, actions: seq<Action>) {
    && |run| == |actions| + 1
    && forall i :: 0 <= i < |actions| ==> Enabled(run[i], actions[i]) && run[i + 1] == Next(run[i], actions[i])
  }

  lemma {:induction false} RunKeeps(run: seq<Pool>, actions: seq<Action>, counter: Option, k: nat)
    requires IsRun(run, actions) && Inv(run[0], counter) && k < |run|
    ensures Inv(run[k], counter)
  {
    if k > 0 {
      RunKeeps(run, actions, counter, k - 1);
      StepKeeps(run[k - 1], actions[k - 1], counter);
    }
  }

  /** The number of steps after the exit begins is bounded, whatever the interleaving. */
  lemma {:induction false} ExitEnds(run: seq<Pool>, actions: seq<Action>, counter: Option)
    requires IsRun(run, actions) && Inv(run[0], counter) && run[0].phase != Inside
    ensures |actions| + ToDo(run[|actions|]) <= ToDo(run[0])
    ensures run[|actions|].phase != Inside
    decreases |actions|
  {
    if actions != [] {
      var n := |actions| - 1;
      ExitEnds(run[..n + 1], actions[..n], counter);
      RunKeeps(run, actions, counter, n);
      ExitProgresses(run[n], actions[n], counter);
    }
  }

  /** The items put by the first k actions, in order. */
  function Puts(actions: seq<Action>, k: nat): seq<Item>
    requires k <= |actions|
  {
    if k == 0 then []
    else Puts(actions, k - 1) + if actions[k - 1].Put? then [actions[k - 1].item] else []
  }

  /** The place of the last of the first k actions in which worker w took something, or -1. */
  function LastGet(actions: seq<Action>, w: nat, k: nat): (g: int)
    requires k <= |actions|
    ensures -1 <= g < k && (g >= 0 ==> actions[g] == Get(w))
    ensures forall j :: g < j < k ==> actions[j] != Get(w)
  {
    if k == 0 then -1 else if actions[k - 1] == Get(w) then k - 1 else LastGet(actions, w, k - 1)
  }

  /** The item worker w was handed by it, from the front of the queue. */
  function Handed(run: seq<Pool>, actions: seq<Action>, w: nat, k: nat): Item
    requires |run| == |actions| + 1 && k <= |actions|
  {
    var g := LastGet(actions, w, k);
    if g >= 0 && run[g].queue != [] && run[g].queue[0].Work? then run[g].queue[0].item else 0
  }

  /** What the calls that returned among the first k actions gave, with their items, in order. */
  function Returned(run: seq<Pool>, actions: seq<Action>, k: nat): seq<(Item, Value)>
    requires |run| == |actions| + 1 && k <= |actions|
  {
    if k == 0 then []
    else
      var a := actions[k - 1];
      Returned(run, actions, k - 1) + if a.Return? then [(Handed(run, actions, a.w, k - 1), a.value)] else []
  }

  /** What the calls of worker w that raised gave, with their items, in order. */
  function RaisedBy(run: seq<Pool>, actions: seq<Action>, w: nat, k: nat): seq<(Item, Value)>
    requires |run| == |actions| + 1 && k <= |actions|
  {
    if k == 0 then []
    else
      var a := actions[k - 1];
      RaisedBy(run, actions, w, k - 1)
      + if a.Raise? && a.w == w then [(Handed(run, actions, w, k - 1), a.exc)] else []
  }

  /** How many of the first k actions raised. */
  function Raises(actions: seq<Action>, k: nat): nat
    requires k <= |actions|
  {
    if k == 0 then 0 else Raises(actions, k - 1) + if actions[k - 1].Raise? then 1 else 0
  }

  lemma {:induction false} CallIsHanded(run: seq<Pool>, actions: seq<Action>, n: nat, w: nat, k: nat)
    requires IsRun(run, actions) && Init(run[0], n) && k < |run| && w < |run[k].workers|
    requires run[k].workers[w].activity.Calling?
    ensures Handed(run, actions, w, k) == run[k].workers[w].activity.item
  {
    if k > 0 {
      SameSize(run, actions, k);
      SameSize(run, actions, k - 1);
      if actions[k - 1] != Get(w) {
        CallIsHanded(run, actions, n, w, k - 1);
      }
    }
  }

  /** Over every run: the results are, in order, the items and values of the calls that
      returned, each worker has stored, in order, those of its own calls that raised, what
      was put is what the put actions say, and there are as many exceptions as calls
      that raised. */
  lemma {:induction false} HistoryIs(run: seq<Pool>, actions: seq<Action>, n: nat, k: nat)
    requires IsRun(run, actions) && Init(run[0], n) && k < |run|
    ensures run[k].results == Returned(run, actions, k)
    ensures |run[k].workers| == n
    ensures forall w :: 0 <= w < n ==> run[k].workers[w].excInfos == RaisedBy(run, actions, w, k)
    ensures run[k].queued == Puts(actions, k) && Exceptions(run[k].workers) == Raises(actions, k)
  {
    SameSize(run, actions, k);
    if k == 0 {
      StartTotals(run[0].workers);
    } else {
      HistoryIs(run, actions, n, k - 1);
      var a, s := actions[k - 1], run[k - 1];
      StepWrites(s, a);
      if a.Return? || a.Raise? {
        CallIsHanded(run, actions, n, a.w, k - 1);
      }
    }
  }

  /** What one action adds to the history, told from the item its worker is on. */
  lemma StepWrites(s: Pool, a: Action)
    requires Enabled(s, a)
    ensures var s' := Next(s, a);
            && s'.results == s.results + (if a.Return? then [(s.workers[a.w].activity.item, a.value)] else [])
            && s'.queued == s.queued + (if a.Put? then [a.item] else [])
            && |s'.workers| == |s.workers|
            && (forall w :: 0 <= w < |s.workers| ==>
                  s'.workers[w].excInfos
                  == s.workers[w].excInfos
                     + if a.Raise? && a.w == w then [(s.workers[w].activity.item, a.exc)] else [])
            && Exceptions(s'.workers) == Exceptions(s.workers) + if a.Raise? then 1 else 0
  {
    if a.Get? || a.Return? || a.Raise? {
      TotalsUpdate(s.workers, a.w, Next(s, a).workers[a.w]);
    }
  }

  /** The result about the pool. In every run from the start in which the exit
      gets through, with at least one worker: everything put was given to func,
      in that order and once; the queue is empty; each worker has taken exactly
      one stop signal; every item has exactly one result or stored exception, the one
      that its call returned or raised; and the counter, if there is one, has gone up by
      the number of calls that raised. */
  lemma PoolIsDone(run: seq<Pool>, actions: seq<Action>, n: nat)
    requires n > 0 && IsRun(run, actions) && Init(run[0], n) && run[|actions|].phase == Through
    ensures var e := run[|actions|];
            && e.taken == e.queued && e.queue == []
            && |e.workers| == n && (forall i :: 0 <= i < n ==> e.workers[i].activity == Dead && e.workers[i].stops == 1)
            && |e.results| + Exceptions(e.workers) == |e.queued|
            && multiset(e.queued) == Firsts(e.results) + HeldByAll(e.workers)
            && e.queued == Puts(actions, |actions|)
            && e.results == Returned(run, actions, |actions|)
            && (forall w :: 0 <= w < n ==> e.workers[w].excInfos == RaisedBy(run, actions, w, |actions|))
            && e.errorCounter == (if run[0].errorCounter.None? then None
                                  else Some(run[0].errorCounter.value + Raises(actions, |actions|)))
  {
    hide Returned, RaisedBy, Raises, Puts, Inv;
    HistoryIs(run, actions, n, |actions|);
    InitHolds(run[0], n);
    RunKeeps(run, actions, run[0].errorCounter, |actions|);
    ThroughIsDone(run[|actions|], run[0].errorCounter);
  }

  /** What the invariant says of a pool with workers that is through. */
  lemma ThroughIsDone(e: Pool, counter: Option)
    requires Inv(e, counter) && e.phase == Through && e.workers != []
    ensures e.taken == e.queued && e.queue == []
    ensures forall i :: 0 <= i < |e.workers| ==> e.workers[i].activity == Dead && e.workers[i].stops == 1
    ensures |e.results| + Exceptions(e.workers) == |e.queued|
    ensures multiset(e.queued) == Firsts(e.results) + HeldByAll(e.workers)
    ensures e.errorCounter == if counter.None? then None else Some(counter.value + Exceptions(e.workers))
  {
    Sizes(e.queue);
    SomeoneLives(e.workers);
    NoneBusy(e.workers);
    assert e.taken + [] == e.taken;
  }

  lemma {:induction false} SameSize(run: seq<Pool>, actions: seq<Action>, k: nat)
    requires IsRun(run, actions) && k < |run|
    ensures |run[k].workers| == |run[0].workers|
  {
    if k > 0 {
      SameSize(run, actions, k - 1);
    }
  }

  lemma {:induction false} NoneBusy(ws: seq<Worker>)
    requires forall i :: 0 <= i < |ws| ==> !Alive(ws[i])
    ensures Busy(ws) == 0
  {
    if ws != [] {
      NoneBusy(ws[1..]);
    }
  }

  /** Without any worker the exit gets through as well, but what was put stays in the queue. */
  lemma NoWorkersNoWork(run: seq<Pool>, actions: seq<Action>)
    requires IsRun(run, actions) && Init(run[0], 0) && run[|actions|].phase == Through
    ensures run[|actions|].taken == [] && Items(run[|actions|].queue) == run[|actions|].queued
  {
    var e := run[|actions|];
    InitHolds(run[0], 0);
    RunKeeps(run, actions, run[0].errorCounter, |actions|);
    SameSize(run, actions, |actions|);
    NothingTaken(run, actions, |actions|);
  }

  /** Without any worker a put is possible exactly while fewer items than the queue
      holds have been put; after that, inside the context, nothing is left to do but
      to leave it. */
  lemma NoWorkersBlock(run: seq<Pool>, actions: seq<Action>, x: Item)
    requires IsRun(run, actions) && Init(run[0], 0) && run[|actions|].phase == Inside
    ensures var e := run[|actions|];
            && (Enabled(e, Put(x)) <==> |e.queued| < e.capacity)
            && (|e.queued| >= e.capacity ==> forall a :: Enabled(e, a) ==> a == BeginExit)
  {
    var e := run[|actions|];
    InitHolds(run[0], 0);
    RunKeeps(run, actions, run[0].errorCounter, |actions|);
    NothingTaken(run, actions, |actions|);
    Sizes(e.queue);
    assert [] + Items(e.queue) == Items(e.queue);
  }

  lemma {:induction false} NothingTaken(run: seq<Pool>, actions: seq<Action>, k: nat)
    requires IsRun(run, actions) && Init(run[0], 0) && k < |run|
    ensures run[k].taken == [] && run[k].workers == []
  {
    if k > 0 {
      NothingTaken(run, actions, k - 1);
    }
  }
}
