/** The callbacks of one pass over the fired events (Clang/aio/ae/ae.c): which are
    made, which are not, and what the kernel's answer has to do with it. */
module AeCalls {
  import opened AeMask
  import opened AeEventLoop
  import AeEpoll
  import AeKqueue
  import AeSelect

  /** One callback made by aeProcessEvents. */
  datatype Call = Call(index: nat, fd: int, write: bool, proc: ProcId, data: ClientData, mask: Mask)

  /** What the callbacks of one pass do: script(n) is what the n-th callback does. */
  type Script = nat -> seq<FileOp>

  ghost predicate ProperScript(script: Script) {
    forall n :: AllProper(script(n))
  }

  /** The event table when the n-th callback of a pass is made. */
  ghost function TableAt(table: seq<FileEvent>, script: Script, n: nat): (r: seq<FileEvent>)
    requires ProperScript(script)
    ensures |r| == |table|
  {
    if n == 0 then table
    else AfterAll(TableAt(table, script, n - 1), script(n - 1))
  }

  lemma TableAtStart(table: seq<FileEvent>, script: Script)
    requires ProperScript(script)
    ensures TableAt(table, script, 0) == table
  {
  }

  /** The callbacks of one fired event, when n callbacks have been made before it. */
  ghost function CallsFor(table: seq<FileEvent>, script: Script, n: nat, index: nat, e: Fired): (calls: seq<Call>)
    requires ProperScript(script) && 0 <= e.fd < |table|
    ensures |calls| <= 2
  {
    var fe := TableAt(table, script, n)[e.fd];
    var r := if fe.mask.readable && e.mask.readable
             then [Call(index, e.fd, false, fe.rproc, fe.data, e.mask)] else [];
    var fe' := TableAt(table, script, n + |r|)[e.fd];
    var w := if fe'.mask.writable && e.mask.writable && (r == [] || fe'.wproc != fe'.rproc)
             then [Call(index, e.fd, true, fe'.wproc, fe'.data, e.mask)] else [];
    r + w
  }

  /** The callbacks of the first j fired events. */
  ghost function Calls(table: seq<FileEvent>, script: Script, fired: seq<Fired>, j: nat): seq<Call>
    requires ProperScript(script) && j <= |fired|
    requires InTable(fired, |table|)
  {
    if j == 0 then []
    else
      var before := Calls(table, script, fired, j - 1);
      before + CallsFor(table, script, |before|, j - 1, fired[j - 1])
  }

  lemma CallsStep(table: seq<FileEvent>, script: Script, fired: seq<Fired>, j: nat, before: seq<Call>, e: Fired)
    requires ProperScript(script) && InTable(fired, |table|) && j < |fired| && e == fired[j]
    requires before == Calls(table, script, fired, j)
    ensures Calls(table, script, fired, j + 1) == before + CallsFor(table, script, |before|, j, e)
  {
  }

  /** A callback is made only for a direction that fired and that the table
      still has when the callback is made, with the handler and data the table
      then holds: what an earlier callback deleted is not called. */
  lemma {:induction false} CallsAreCurrent(table: seq<FileEvent>, script: Script, fired: seq<Fired>, j: nat, k: nat)
    requires ProperScript(script) && j <= |fired|
    requires InTable(fired, |table|)
    requires k < |Calls(table, script, fired, j)|
    ensures var c := Calls(table, script, fired, j)[k];
            && c.index < j && c.fd == fired[c.index].fd && c.mask == fired[c.index].mask
            && var fe := TableAt(table, script, k)[c.fd];
               && c.data == fe.data
               && c.proc == (if c.write then fe.wproc else fe.rproc)
               && (if c.write then fe.mask.writable && c.mask.writable else fe.mask.readable && c.mask.readable)
  {
    hide AfterAll, TableAt;
    var before := Calls(table, script, fired, j - 1);
    if k < |before| {
      CallsAreCurrent(table, script, fired, j - 1, k);
    } else {
      var more := CallsFor(table, script, |before|, j - 1, fired[j - 1]);
      assert Calls(table, script, fired, j)[k] == more[k - |before|];
    }
  }

  /** The callbacks of the first events come first. */
  lemma {:induction false} CallsArePrefix(table: seq<FileEvent>, script: Script, fired: seq<Fired>, j: nat, k: nat)
    requires ProperScript(script) && InTable(fired, |table|) && j <= k <= |fired|
    ensures Calls(table, script, fired, j) <= Calls(table, script, fired, k)
  {
    hide TableAt;
    if j < k {
      CallsArePrefix(table, script, fired, j, k - 1);
      CallsStep(table, script, fired, k - 1, Calls(table, script, fired, k - 1), fired[k - 1]);
    }
  }

  /** The read callback of a fired event is due when its slot, at its turn, asks for it. */
  predicate ReadDue(fe: FileEvent, e: Fired) {
    fe.mask.readable && e.mask.readable
  }

  /** So is the write callback, unless its handler has just been called to read. */
  predicate WriteDue(fe: FileEvent, e: Fired, called: bool) {
    fe.mask.writable && e.mask.writable && (!called || fe.wproc != fe.rproc)
  }

  lemma CallsForAre(table: seq<FileEvent>, script: Script, n: nat, index: nat, e: Fired)
    requires ProperScript(script) && 0 <= e.fd < |table|
    ensures var calls := CallsFor(table, script, n, index, e);
            var read := ReadDue(TableAt(table, script, n)[e.fd], e);
            var n' := n + if read then 1 else 0;
            var write := WriteDue(TableAt(table, script, n')[e.fd], e, read);
            && |calls| == (if read then 1 else 0) + (if write then 1 else 0)
            && (read ==> !calls[0].write)
            && (write ==> calls[|calls| - 1].write)
  {
    hide TableAt;
  }

  /** The slot of a descriptor when the n-th callback of a pass is made. */
  ghost function Slot(table: seq<FileEvent>, script: Script, n: nat, fd: int): FileEvent
    requires ProperScript(script) && 0 <= fd < |table|
  {
    TableAt(table, script, n)[fd]
  }

  /** The n-th call is one to read, or one to write. */
  ghost predicate IsCall(calls: seq<Call>, n: nat, write: bool) {
    n < |calls| && calls[n].write == write
  }

  /** Nothing due is left out. The calls for the j-th fired event are those with its
      index, at consecutive places after those of the events before it; the read call
      is there exactly when it is due at its turn, and the write call likewise, after
      it, and there is no other. */
  lemma DueIsCalled(table: seq<FileEvent>, script: Script, fired: seq<Fired>, j: nat)
    requires ProperScript(script) && InTable(fired, |table|) && j < |fired|
    ensures var all := Calls(table, script, fired, |fired|);
            var n, m := |Calls(table, script, fired, j)|, |Calls(table, script, fired, j + 1)|;
            var fe, mask := Slot(table, script, n, fired[j].fd), fired[j].mask;
            var read := fe.mask.readable && mask.readable;
            var n' := n + if read then 1 else 0;
            var fe' := Slot(table, script, n', fired[j].fd);
            var write := fe'.mask.writable && mask.writable && (!read || fe'.wproc != fe'.rproc);
            && n <= m <= |all| && m == n' + (if write then 1 else 0)
            && (forall k :: 0 <= k < |all| ==> (all[k].index == j <==> n <= k < m))
            && (read ==> IsCall(all, n, false))
            && (write ==> IsCall(all, n', true))
  {
    hide TableAt, Calls, CallsFor;
    var all, before, after := Calls(table, script, fired, |fired|), Calls(table, script, fired, j),
                              Calls(table, script, fired, j + 1);
    CallsArePrefix(table, script, fired, j, j + 1);
    CallsArePrefix(table, script, fired, j + 1, |fired|);
    CallsStep(table, script, fired, j, before, fired[j]);
    CallsForAre(table, script, |before|, j, fired[j]);
    forall k | 0 <= k < |all| ensures all[k].index == j <==> |before| <= k < |after| {
      IndexAt(table, script, fired, j, k);
    }
  }

  lemma IndexAt(table: seq<FileEvent>, script: Script, fired: seq<Fired>, j: nat, k: nat)
    requires ProperScript(script) && InTable(fired, |table|) && j < |fired|
    requires k < |Calls(table, script, fired, |fired|)|
    ensures Calls(table, script, fired, |fired|)[k].index == j
            <==> |Calls(table, script, fired, j)| <= k < |Calls(table, script, fired, j + 1)|
  {
    hide Calls, TableAt;
    IndexBounds(table, script, fired, |fired|, j, k);
    IndexBounds(table, script, fired, |fired|, j + 1, k);
  }

  lemma {:induction false} IndexBounds(table: seq<FileEvent>, script: Script, fired: seq<Fired>,
                                           i: nat, j: nat, k: nat)
    requires ProperScript(script) && InTable(fired, |table|) && j <= i <= |fired|
    requires k < |Calls(table, script, fired, i)|
    ensures Calls(table, script, fired, i)[k].index < j <==> k < |Calls(table, script, fired, j)|
  {
    CallsArePrefix(table, script, fired, j, i);
    if k < |Calls(table, script, fired, j)| {
      CallsAreCurrent(table, script, fired, j, k);
    } else {
      CallsFromAre(table, script, fired, i, j, k);
    }
  }

  lemma {:induction false} CallsFromAre(table: seq<FileEvent>, script: Script, fired: seq<Fired>,
                                        i: nat, j: nat, k: nat)
    requires ProperScript(script) && InTable(fired, |table|) && j <= i <= |fired|
    requires |Calls(table, script, fired, j)| <= k < |Calls(table, script, fired, i)|
    ensures Calls(table, script, fired, i)[k].index >= j
  {
    hide TableAt;
    CallsStep(table, script, fired, i - 1, Calls(table, script, fired, i - 1), fired[i - 1]);
    if k < |Calls(table, script, fired, i - 1)| {
      CallsFromAre(table, script, fired, i - 1, j, k);
    }
  }

  /** Some callback is made for the j-th fired event. */
  ghost predicate Made(table: seq<FileEvent>, script: Script, fired: seq<Fired>, j: nat)
    requires ProperScript(script) && InTable(fired, |table|) && j < |fired|
  {
    |Calls(table, script, fired, j)| < |Calls(table, script, fired, j + 1)|
  }

  lemma MadeIsThere(table: seq<FileEvent>, script: Script, fired: seq<Fired>, j: nat)
    requires ProperScript(script) && InTable(fired, |table|) && j < |fired| && Made(table, script, fired, j)
    ensures Calls(table, script, fired, |fired|) != []
  {
    hide Calls;
    CallsArePrefix(table, script, fired, j + 1, |fired|);
  }

  /** The slot of the j-th fired event at its turn. */
  ghost function SlotAt(table: seq<FileEvent>, script: Script, fired: seq<Fired>, j: nat): FileEvent
    requires ProperScript(script) && InTable(fired, |table|) && j < |fired|
  {
    TableAt(table, script, |Calls(table, script, fired, j)|)[fired[j].fd]
  }

  /** Exactly when a fired event gets a callback. */
  lemma MadeExactly(table: seq<FileEvent>, script: Script, fired: seq<Fired>, j: nat)
    requires ProperScript(script) && InTable(fired, |table|) && j < |fired|
    ensures Made(table, script, fired, j)
            <==> !SlotAt(table, script, fired, j).mask.And(fired[j].mask).Empty()
  {
    hide TableAt;
    var before := Calls(table, script, fired, j);
    CallsStep(table, script, fired, j, before, fired[j]);
    CallsForAre(table, script, |before|, j, fired[j]);
  }

  /** How many of the first j fired events get a callback. */
  ghost function Served(table: seq<FileEvent>, script: Script, fired: seq<Fired>, j: nat): nat
    requires ProperScript(script) && InTable(fired, |table|) && j <= |fired|
  {
    if j == 0 then 0 else Served(table, script, fired, j - 1) + if Made(table, script, fired, j - 1) then 1 else 0
  }

  /** aeProcessEvents counts every fired event as processed. That is the number of those
      that get a callback exactly when the slot of each, at its turn, asks for something
      that fired. */
  lemma {:induction false} CountedIsServedExactly(table: seq<FileEvent>, script: Script, fired: seq<Fired>, j: nat)
    requires ProperScript(script) && InTable(fired, |table|) && j <= |fired|
    ensures Served(table, script, fired, j) <= j
    ensures Served(table, script, fired, j) == j
            <==> forall i :: 0 <= i < j ==> !SlotAt(table, script, fired, i).mask.And(fired[i].mask).Empty()
  {
    hide SlotAt, Made;
    if j > 0 {
      CountedIsServedExactly(table, script, fired, j - 1);
      MadeExactly(table, script, fired, j - 1);
    }
  }

  /** With select every registered descriptor counts once any is ready: two readers, of
      which one is ready, are two processed events and one callback. */
  lemma SelectCountsIdle(api: Api, script: Script)
    requires api.Select? && ProperScript(script)
    ensures var reader := FileEvent(Mask(true, false), 0, 1, 0);
            var table, answer := [reader, reader], Bits({0}, {});
            var fired := [Fired(0, Mask(true, false)), Fired(1, NONE)];
            && Possible(api, MasksOf(table), answer) && FiredBy(api, MasksOf(table), answer) == fired
            && Served(table, script, fired, 2) == 1
  {
    var reader := FileEvent(Mask(true, false), 0, 1, 0);
    ScanOfTwo(MasksOf([reader, reader]));
    OneOfTwoIsServed([reader, reader], script);
  }

  lemma {:induction false} OneOfTwoIsServed(table: seq<FileEvent>, script: Script)
    requires ProperScript(script) && |table| == 2 && table[0].mask == Mask(true, false)
    ensures Served(table, script, [Fired(0, Mask(true, false)), Fired(1, NONE)], 2) == 1
  {
    var fired := [Fired(0, Mask(true, false)), Fired(1, NONE)];
    TableAtStart(table, script);
    hide TableAt, Made;
    MadeExactly(table, script, fired, 0);
    MadeExactly(table, script, fired, 1);
    hide SlotAt;
    assert Served(table, script, fired, 0) == 0;
    assert Served(table, script, fired, 1) == 1;
  }

  lemma ScanOfTwo(masks: seq<Mask>)
    requires masks == [Mask(true, false), Mask(true, false)]
    ensures AeSelect.Scan(masks, 2, {0}, {}) == [Fired(0, Mask(true, false)), Fired(1, NONE)]
  {
    assert AeSelect.Scan(masks, 0, {0}, {}) == [];
    assert AeSelect.Scan(masks, 1, {0}, {}) == [Fired(0, Mask(true, false))];
  }

  /** Exactly when a descriptor that epoll reports gets a callback: an error or a
      hang-up reaches only a writer. */
  lemma EpollReportIsCalled(api: Api, table: seq<FileEvent>, answer: Answer, script: Script, j: nat)
    requires api.Epoll? && Possible(api, MasksOf(table), answer) && ProperScript(script) && j < |answer.ready|
    ensures var fired := FiredBy(api, MasksOf(table), answer);
            var r := answer.ready[j].revents;
            && InTable(fired, |table|) && |fired| == |answer.ready|
            && var mask := SlotAt(table, script, fired, j).mask;
               Made(table, script, fired, j)
               <==> (mask.readable && r.pin) || (mask.writable && (r.pout || r.perr || r.phup))
  {
    FiredFits(api, MasksOf(table), answer);
    MadeExactly(table, script, FiredBy(api, MasksOf(table), answer), j);
  }

  /** And one that an event port reports: an error or a hang-up reaches nobody. */
  lemma EvportReportIsCalled(api: Api, table: seq<FileEvent>, answer: Answer, script: Script, j: nat)
    requires api.Evport? && Possible(api, MasksOf(table), answer) && ProperScript(script) && j < |answer.ready|
    ensures var fired := FiredBy(api, MasksOf(table), answer);
            var r := answer.ready[j].revents;
            && InTable(fired, |table|) && |fired| == |answer.ready|
            && var mask := SlotAt(table, script, fired, j).mask;
               Made(table, script, fired, j) <==> (mask.readable && r.pin) || (mask.writable && r.pout)
  {
    FiredFits(api, MasksOf(table), answer);
    MadeExactly(table, script, FiredBy(api, MasksOf(table), answer), j);
  }

  /** And one that kqueue reports, an event for each filter. */
  lemma KqueueReportIsCalled(api: Api, table: seq<FileEvent>, answer: Answer, script: Script, j: nat)
    requires api.Kqueue? && Possible(api, MasksOf(table), answer) && ProperScript(script) && j < |answer.kevents|
    ensures var fired := FiredBy(api, MasksOf(table), answer);
            var e := answer.kevents[j];
            && InTable(fired, |table|) && |fired| == |answer.kevents| && fired[j].fd == e.ident
            && var mask := SlotAt(table, script, fired, j).mask;
               Made(table, script, fired, j)
               <==> (mask.readable && e.filter.FilterRead?) || (mask.writable && e.filter.FilterWrite?)
  {
    FiredFits(api, MasksOf(table), answer);
    MadeExactly(table, script, FiredBy(api, MasksOf(table), answer), j);
  }

  /** And one that select leaves in its sets. */
  lemma SelectReportIsCalled(api: Api, table: seq<FileEvent>, answer: Answer, script: Script, j: nat)
    requires api.Select? && Possible(api, MasksOf(table), answer) && ProperScript(script)
    requires j < |FiredBy(api, MasksOf(table), answer)|
    ensures var fired := FiredBy(api, MasksOf(table), answer);
            var fd := fired[j].fd;
            && InTable(fired, |table|)
            && var mask := SlotAt(table, script, fired, j).mask;
               Made(table, script, fired, j)
               <==> (mask.readable && fd in answer.rbits) || (mask.writable && fd in answer.wbits)
  {
    var fired := FiredBy(api, MasksOf(table), answer);
    FiredFits(api, MasksOf(table), answer);
    AeSelect.ScanFits(MasksOf(table), |table|, answer.rbits, answer.wbits);
    assert fired[j] in fired;
    MadeExactly(table, script, fired, j);
  }

  const HANGUP := Revents(false, false, false, true)

  /** A hang-up that an event port reports for a descriptor registered for both
      directions leads to no callback. */
  lemma EvportMissesHangup(api: Api, script: Script)
    requires api.Evport? && ProperScript(script)
    ensures var table, answer := [FileEvent(Mask(true, true), 0, 1, 0)], ReadyList([Ready(0, HANGUP)]);
            && Possible(api, MasksOf(table), answer)
            && FiredBy(api, MasksOf(table), answer) == [Fired(0, NONE)]
            && Calls(table, script, [Fired(0, NONE)], 1) == []
  {
    var table := [FileEvent(Mask(true, true), 0, 1, 0)];
    NotMade(table, script, Fired(0, NONE));
  }

  /** A hang-up that epoll reports for a descriptor registered for reading only, such
      as the read end of a closed pipe, leads to no callback. */
  lemma EpollMissesHangup(api: Api, script: Script)
    requires api.Epoll? && ProperScript(script)
    ensures var table, answer := [FileEvent(Mask(true, false), 0, 1, 0)], ReadyList([Ready(0, HANGUP)]);
            && Possible(api, MasksOf(table), answer)
            && FiredBy(api, MasksOf(table), answer) == [Fired(0, Mask(false, true))]
            && Calls(table, script, [Fired(0, Mask(false, true))], 1) == []
  {
    var table := [FileEvent(Mask(true, false), 0, 1, 0)];
    NotMade(table, script, Fired(0, Mask(false, true)));
  }

  lemma NotMade(table: seq<FileEvent>, script: Script, e: Fired)
    requires ProperScript(script) && 0 <= e.fd < |table| && table[e.fd].mask.And(e.mask).Empty()
    ensures Calls(table, script, [e], 1) == []
  {
    assert InTable([e], |table|);
    TableAtStart(table, script);
    hide TableAt;
    MadeExactly(table, script, [e], 0);
  }

  /** With this answer and these callbacks, one is made for descriptor fd. */
  ghost predicate LeadsTo(api: Api, table: seq<FileEvent>, answer: Answer, script: Script, fd: int) {
    && Possible(api, MasksOf(table), answer) && ProperScript(script)
    && var fired := FiredBy(api, MasksOf(table), answer);
       InTable(fired, |table|) && exists j :: 0 <= j < |fired| && fired[j].fd == fd && Made(table, script, fired, j)
  }

  /** A poll for this table can lead to a callback for fd. */
  ghost predicate CanBeCalled(api: Api, table: seq<FileEvent>, fd: int) {
    exists answer, script :: LeadsTo(api, table, answer, script, fd)
  }

  /** An answer in which fd is ready for what it is registered for. */
  ghost function ReadyAnswer(api: Api, mask: Mask, fd: int): Answer {
    match api
    case Kqueue(_) =>
      Kevents([AeKqueue.Kevent(fd, if mask.readable then AeKqueue.FilterRead else AeKqueue.FilterWrite)])
    case Select(_) => Bits(if mask.readable then {fd} else {}, if mask.writable then {fd} else {})
    case _ => ReadyList([Ready(fd, Revents(mask.readable, mask.writable, false, false))])
  }

  /** Callbacks that do nothing. */
  ghost predicate Idle(script: Script) {
    forall n :: script(n) == []
  }

  lemma {:induction false} IdleLeavesTable(table: seq<FileEvent>, script: Script, n: nat)
    requires Idle(script)
    ensures ProperScript(script) && TableAt(table, script, n) == table
  {
    if n > 0 {
      IdleLeavesTable(table, script, n - 1);
    }
  }

  /** Over every backend: when the k-th of some operations is the last for descriptor fd
      and a direction, and creates an event, and the d-th is the last that creates one for
      fd, then a poll after them that reports the direction leads, with callbacks that do
      nothing, to a call of the handler of the one with the data of the other. Only for
      writing, when the same handler has been called to read, can it be that call. */
  lemma CreatedIsCalled(api: Api, table: seq<FileEvent>, ops: seq<FileOp>, fd: int, write: bool, k: nat, d: nat,
                        answer: Answer, script: Script)
    requires AllProper(ops) && Idle(script) && 0 <= fd < |table| && k < |ops| && d < |ops|
    requires ops[k].Create? && ops[k].fd == fd && if write then ops[k].mask.writable else ops[k].mask.readable
    requires forall j :: k < j < |ops| && ops[j].fd == fd ==>
               if write then !ops[j].mask.writable else !ops[j].mask.readable
    requires ops[d].Create? && ops[d].fd == fd && forall j :: d < j < |ops| && ops[j].fd == fd ==> ops[j].Delete?
    requires Possible(api, MasksOf(AfterAll(table, ops)), answer) && Reports(answer, fd, write)
    ensures var after := AfterAll(table, ops);
            var fired := FiredBy(api, MasksOf(after), answer);
            && InTable(fired, |after|) && ProperScript(script)
            && exists c :: c in Calls(after, script, fired, |fired|)
                           && c.fd == fd && c.proc == ops[k].proc && c.data == ops[d].data && (c.write ==> write)
  {
    var after := AfterAll(table, ops);
    HandlerOfLastCreate(table, ops, fd, write, k);
    DataOfLastCreate(table, ops, fd, d);
    RegisteredByLast(table, ops, fd, write, k);
    hide AfterAll;
    IdleLeavesTable(after, script, 0);
    FiredFits(api, MasksOf(after), answer);
    NothingReadyIsMissed(api, MasksOf(after), answer, fd, write);
    var fired := FiredBy(api, MasksOf(after), answer);
    var i :| 0 <= i < |fired| && fired[i].fd == fd
             && if write then fired[i].mask.writable else fired[i].mask.readable;
    ReportIsCalled(after, script, fired, i, write);
  }

  lemma ReportIsCalled(table: seq<FileEvent>, script: Script, fired: seq<Fired>, i: nat, write: bool)
    requires Idle(script) && ProperScript(script) && InTable(fired, |table|) && i < |fired|
    requires var fe := table[fired[i].fd];
             if write then fe.mask.writable && fired[i].mask.writable else fe.mask.readable && fired[i].mask.readable
    ensures var fe := table[fired[i].fd];
            exists c :: c in Calls(table, script, fired, |fired|)
                        && c.fd == fired[i].fd && c.proc == (if write then fe.wproc else fe.rproc)
                        && c.data == fe.data && (c.write ==> write)
  {
    hide TableAt, Calls;
    var all, fe := Calls(table, script, fired, |fired|), table[fired[i].fd];
    var n := |Calls(table, script, fired, i)|;
    IdleLeavesTable(table, script, n);
    IdleLeavesTable(table, script, n + 1);
    DueIsCalled(table, script, fired, i);
    var read := ReadDue(fe, fired[i]);
    var k := if write && WriteDue(fe, fired[i], read) && read then n + 1 else n;
    IdleLeavesTable(table, script, k);
    CallsAreCurrent(table, script, fired, |fired|, k);
    assert all[k] in all;
  }

  /** Over every backend, a registered descriptor has an answer that gets it a callback. */
  lemma RegisteredCanBeCalled(api: Api, table: seq<FileEvent>, fd: int, script: Script)
    requires Registered(MasksOf(table), fd) && Idle(script)
    ensures LeadsTo(api, table, ReadyAnswer(api, table[fd].mask, fd), script, fd)
  {
    var masks, mask := MasksOf(table), table[fd].mask;
    var answer := ReadyAnswer(api, mask, fd);
    assert Possible(api, masks, answer);
    var fired := FiredBy(api, masks, answer);
    FiredFits(api, masks, answer);
    var j := FiredAt(api, masks, mask, fd);
    IdleLeavesTable(table, script, 0);
    IdleLeavesTable(table, script, |Calls(table, script, fired, j)|);
    MadeExactly(table, script, fired, j);
  }

  lemma FiredAt(api: Api, masks: seq<Mask>, mask: Mask, fd: int) returns (j: nat)
    requires Registered(masks, fd) && mask == masks[fd] && Possible(api, masks, ReadyAnswer(api, mask, fd))
    ensures var fired := FiredBy(api, masks, ReadyAnswer(api, mask, fd));
            j < |fired| && fired[j].fd == fd && !mask.And(fired[j].mask).Empty()
  {
    j := 0;
    if api.Select? {
      var answer := ReadyAnswer(api, mask, fd);
      AeSelect.ScanMissesNothing(masks, |masks|, fd, answer.rbits, answer.wbits);
      var fired := FiredBy(api, masks, answer);
      j :| 0 <= j < |fired| && fired[j] == AeSelect.Scanned(masks, fd, answer.rbits, answer.wbits);
    }
  }

  /** A descriptor can get a callback in a turn exactly when it is registered at the
      time of the poll. So one that a timer of the turn registers, which is after the
      poll, can only if it was registered before. */
  lemma CanBeCalledExactly(api: Api, table: seq<FileEvent>, fd: int)
    ensures CanBeCalled(api, table, fd) <==> Registered(MasksOf(table), fd)
  {
    if Registered(MasksOf(table), fd) {
      RegisteredCanBeCalled(api, table, fd, (n: nat) => []);
    }
    if CanBeCalled(api, table, fd) {
      var answer, script :| LeadsTo(api, table, answer, script, fd);
      FiredFits(api, MasksOf(table), answer);
    }
  }

  /** No poll can lead to any callback exactly when no descriptor is registered. */
  lemma NoneCanBeCalled(api: Api, table: seq<FileEvent>)
    ensures (forall fd :: !CanBeCalled(api, table, fd)) <==> IsMaxFd(MasksOf(table), -1)
  {
    forall fd ensures CanBeCalled(api, table, fd) <==> Registered(MasksOf(table), fd) {
      CanBeCalledExactly(api, table, fd);
    }
    assert IsMaxFd(MasksOf(table), -1) ==> forall fd :: !Registered(MasksOf(table), fd);
    if forall fd :: !CanBeCalled(api, table, fd) {
      forall fd | 0 <= fd < |table| ensures MasksOf(table)[fd].Empty() {
        assert !CanBeCalled(api, table, fd);
      }
    }
  }
}
