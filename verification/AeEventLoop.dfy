/** The file-event half of the event loop (Clang/aio/ae/ae.c), over any of the
    four backends. */
module AeEventLoop {
  import opened AeMask
  import AeEvport
  import AeEpoll
  import AeKqueue
  import AeSelect

  type ProcId = nat
  type ClientData = nat

  /** One slot of the event table. */
  datatype FileEvent = FileEvent(mask: Mask, rproc: ProcId, wproc: ProcId, data: ClientData)

  /** What one aeCreateFileEvent or aeDeleteFileEvent call does. */
  datatype FileOp =
    | Create(fd: int, mask: Mask, proc: ProcId, data: ClientData)
    | Delete(fd: int, mask: Mask)

  /** What the source demands of a caller: a descriptor, and something to wait for. */
  predicate Proper(op: FileOp) {
    op.fd >= 0 && (op.Create? ==> !op.mask.Empty())
  }

  ghost predicate AllProper(ops: seq<FileOp>) {
    forall i :: 0 <= i < |ops| ==> Proper(ops[i])
  }

  function MasksOf(table: seq<FileEvent>): (masks: seq<Mask>)
    ensures |masks| == |table|
    ensures forall fd :: 0 <= fd < |table| ==> masks[fd] == table[fd].mask
  {
    seq(|table|, fd requires 0 <= fd < |table| => table[fd].mask)
  }

  /** The event table after one operation; outside the table nothing happens. */
  ghost function After(table: seq<FileEvent>, op: FileOp): (r: seq<FileEvent>)
    requires op.fd >= 0
    ensures |r| == |table|
  {
    if op.fd >= |table| then table
    else
      var fe := table[op.fd];
      match op
      case Create(fd, mask, proc, data) =>
        table[fd := FileEvent(fe.mask.Or(mask),
                              if mask.readable then proc else fe.rproc,
                              if mask.writable then proc else fe.wproc,
                              data)]
      case Delete(fd, mask) => table[fd := fe.(mask := fe.mask.Without(mask))]
  }

  ghost function AfterAll(table: seq<FileEvent>, ops: seq<FileOp>): (r: seq<FileEvent>)
    requires AllProper(ops)
    ensures |r| == |table|
  {
    if ops == [] then table
    else After(AfterAll(table, ops[..|ops| - 1]), ops[|ops| - 1])
  }

  /** What one operation does to the slot of fd. */
  lemma SlotAfter(table: seq<FileEvent>, op: FileOp, fd: int)
    requires op.fd >= 0 && 0 <= fd < |table|
    ensures var before, fe := table[fd], After(table, op)[fd];
            && (op.fd != fd ==> fe == before)
            && (op.Delete? || !op.mask.readable ==> fe.rproc == before.rproc)
            && (op.Delete? || !op.mask.writable ==> fe.wproc == before.wproc)
            && (op.Delete? ==> fe.data == before.data)
            && (op.fd == fd && op.Create? ==>
                  && (op.mask.readable ==> fe.mask.readable && fe.rproc == op.proc)
                  && (op.mask.writable ==> fe.mask.writable && fe.wproc == op.proc)
                  && fe.data == op.data)
            && (op.fd == fd && op.Delete? ==>
                  (op.mask.readable ==> !fe.mask.readable) && (op.mask.writable ==> !fe.mask.writable))
            && (!op.mask.readable ==> fe.mask.readable == before.mask.readable)
            && (!op.mask.writable ==> fe.mask.writable == before.mask.writable)
  {
  }

  /** The handler of a descriptor for a direction is that of the k-th operation, if that
      is the last that creates an event for both, and with k negative, if none does, the
      handler the table had. Nothing else changes it, no deletion either. */
  lemma {:induction false} HandlerOfLastCreate(table: seq<FileEvent>, ops: seq<FileOp>, fd: int, write: bool, k: int)
    requires AllProper(ops) && 0 <= fd < |table| && -1 <= k < |ops|
    requires k >= 0 ==> ops[k].Create? && ops[k].fd == fd
                        && if write then ops[k].mask.writable else ops[k].mask.readable
    requires forall j :: k < j < |ops| && ops[j].Create? && ops[j].fd == fd ==>
               if write then !ops[j].mask.writable else !ops[j].mask.readable
    ensures var fe := AfterAll(table, ops)[fd];
            (if write then fe.wproc else fe.rproc)
            == if k >= 0 then ops[k].proc else if write then table[fd].wproc else table[fd].rproc
    decreases |ops|
  {
    if ops != [] {
      SlotAfter(AfterAll(table, ops[..|ops| - 1]), ops[|ops| - 1], fd);
      if k < |ops| - 1 {
        HandlerOfLastCreate(table, ops[..|ops| - 1], fd, write, k);
      }
    }
  }

  /** Its data is that of the last operation that creates an event for it, whatever the mask. */
  lemma {:induction false} DataOfLastCreate(table: seq<FileEvent>, ops: seq<FileOp>, fd: int, k: int)
    requires AllProper(ops) && 0 <= fd < |table| && -1 <= k < |ops|
    requires k >= 0 ==> ops[k].Create? && ops[k].fd == fd
    requires forall j :: k < j < |ops| && ops[j].fd == fd ==> ops[j].Delete?
    ensures AfterAll(table, ops)[fd].data == if k >= 0 then ops[k].data else table[fd].data
    decreases |ops|
  {
    if ops != [] {
      SlotAfter(AfterAll(table, ops[..|ops| - 1]), ops[|ops| - 1], fd);
      if k < |ops| - 1 {
        DataOfLastCreate(table, ops[..|ops| - 1], fd, k);
      }
    }
  }

  /** It is registered for a direction exactly when the last operation for both creates
      an event; with no such operation, when it was before. */
  lemma {:induction false} RegisteredByLast(table: seq<FileEvent>, ops: seq<FileOp>, fd: int, write: bool, k: int)
    requires AllProper(ops) && 0 <= fd < |table| && -1 <= k < |ops|
    requires k >= 0 ==> ops[k].fd == fd && if write then ops[k].mask.writable else ops[k].mask.readable
    requires forall j :: k < j < |ops| && ops[j].fd == fd ==>
               if write then !ops[j].mask.writable else !ops[j].mask.readable
    ensures var mask := AfterAll(table, ops)[fd].mask;
            (if write then mask.writable else mask.readable)
            <==> if k >= 0 then ops[k].Create?
                 else if write then table[fd].mask.writable else table[fd].mask.readable
    decreases |ops|
  {
    if ops != [] {
      SlotAfter(AfterAll(table, ops[..|ops| - 1]), ops[|ops| - 1], fd);
      if k < |ops| - 1 {
        RegisteredByLast(table, ops[..|ops| - 1], fd, write, k);
      }
    }
  }

  /** maxfd is -1 or registered, with nothing registered above it. */
  ghost predicate IsMaxFd(masks: seq<Mask>, maxfd: int) {
    && -1 <= maxfd < |masks|
    && (maxfd != -1 ==> Registered(masks, maxfd))
    && forall fd :: maxfd < fd < |masks| ==> masks[fd].Empty()
  }

  /** The backend chosen when the source is compiled. */
  datatype Api =
    | Evport(port: AeEvport.ApiState)
    | Epoll(epoll: AeEpoll.ApiState)
    | Kqueue(kqueue: AeKqueue.ApiState)
    | Select(select: AeSelect.ApiState)
  {
    ghost function Repr(): set<object> {
      match this
      case Evport(s) => s.Repr()
      case Epoll(s) => s.Repr()
      case Kqueue(s) => s.Repr()
      case Select(s) => s.Repr()
    }

    /** The backend and its kernel hold exactly the interest of the mask table. */
    ghost predicate Mirrors(masks: seq<Mask>)
      reads Repr()
    {
      match this
      case Evport(s) => s.Mirrors(masks)
      case Epoll(s) => s.Mirrors(masks)
      case Kqueue(s) => s.Mirrors(masks)
      case Select(s) => s.Mirrors(masks)
    }

    method AddEvent(fd: int, mask: Mask, ghost masks: seq<Mask>, current: Mask) returns (rc: int)
      requires Mirrors(masks) && 0 <= fd < |masks| && current == masks[fd] && !mask.Empty()
      modifies Repr()
      ensures rc == 0 && Mirrors(Added(masks, fd, mask))
    {
      match this
      case Evport(s) => rc := s.AddEvent(fd, mask, masks, current);
      case Epoll(s) => rc := s.AddEvent(fd, mask, masks, current);
      case Kqueue(s) => rc := s.AddEvent(fd, mask, masks);
      case Select(s) => rc := s.AddEvent(fd, mask, masks);
    }

    method DelEvent(fd: int, mask: Mask, ghost masks: seq<Mask>, current: Mask)
      requires Mirrors(masks) && Registered(masks, fd) && current == masks[fd].Without(mask)
      modifies Repr()
      ensures Mirrors(Removed(masks, fd, mask))
    {
      match this
      case Evport(s) => s.DelEvent(fd, mask, masks, current);
      case Epoll(s) => s.DelEvent(fd, mask, masks, current);
      case Kqueue(s) => s.DelEvent(fd, mask, masks);
      case Select(s) => s.DelEvent(fd, mask, masks);
    }
  }

  datatype Backend = UseEvport | UseEpoll | UseKqueue | UseSelect

  /** A kernel's answer to one poll. */
  datatype Answer =
    | ReadyList(ready: seq<Ready>)
    | Kevents(kevents: seq<AeKqueue.Kevent>)
    | Bits(rbits: set<int>, wbits: set<int>)

  /** The answers a kernel can give to a backend that holds this table. */
  ghost predicate Possible(api: Api, masks: seq<Mask>, answer: Answer) {
    match api
    case Evport(_) =>
      answer.ReadyList? && PossibleReady(masks, answer.ready) && |answer.ready| <= AeEvport.MAX_EVENT_BATCHSZ
    case Epoll(_) => answer.ReadyList? && PossibleReady(masks, answer.ready)
    case Kqueue(_) => answer.Kevents? && AeKqueue.PossibleKevents(masks, answer.kevents)
    case Select(_) =>
      && answer.Bits?
      && (forall fd :: fd in answer.rbits ==> 0 <= fd < |masks| && masks[fd].readable)
      && (forall fd :: fd in answer.wbits ==> 0 <= fd < |masks| && masks[fd].writable)
  }

  /** What aeApiPoll writes to the fired array for an answer. */
  ghost function FiredBy(api: Api, masks: seq<Mask>, answer: Answer): seq<Fired>
    requires Possible(api, masks, answer)
  {
    match api
    case Evport(_) =>
      seq(|answer.ready|, i requires 0 <= i < |answer.ready| =>
            Fired(answer.ready[i].fd, Mask(answer.ready[i].revents.pin, answer.ready[i].revents.pout)))
    case Epoll(_) =>
      seq(|answer.ready|, i requires 0 <= i < |answer.ready| =>
            Fired(answer.ready[i].fd, AeEpoll.MaskOf(answer.ready[i].revents)))
    case Kqueue(_) =>
      seq(|answer.kevents|, i requires 0 <= i < |answer.kevents| =>
            Fired(answer.kevents[i].ident, AeKqueue.MaskOf(answer.kevents[i])))
    case Select(_) =>
      if answer.rbits == {} == answer.wbits then []
      else AeSelect.Scan(masks, |masks|, answer.rbits, answer.wbits)
  }

  ghost predicate InTable(fired: seq<Fired>, setsize: nat) {
    forall i :: 0 <= i < |fired| ==> 0 <= fired[i].fd < setsize
  }

  /** Whichever backend reports them, fired events fit the fired array and are
      for registered descriptors only. */
  lemma FiredFits(api: Api, masks: seq<Mask>, answer: Answer)
    requires Possible(api, masks, answer)
    ensures |FiredBy(api, masks, answer)| <= |masks|
    ensures forall i :: 0 <= i < |FiredBy(api, masks, answer)| ==> Registered(masks, FiredBy(api, masks, answer)[i].fd)
    ensures InTable(FiredBy(api, masks, answer), |masks|)
  {
    match api
    case Evport(_) => ReadyFits(masks, answer.ready);
    case Epoll(_) => ReadyFits(masks, answer.ready);
    case Kqueue(_) =>
    case Select(_) =>
      if !(answer.rbits == {} == answer.wbits) {
        AeSelect.ScanFits(masks, |masks|, answer.rbits, answer.wbits);
      }
  }

  /** The kernel's answer says that fd is ready for reading or for writing, as opposed
      to having met an error or a hang-up. */
  ghost predicate Reports(answer: Answer, fd: int, write: bool) {
    match answer
    case ReadyList(ready) =>
      exists i :: 0 <= i < |ready| && ready[i].fd == fd && if write then ready[i].revents.pout else ready[i].revents.pin
    case Kevents(kevents) =>
      AeKqueue.Kevent(fd, if write then AeKqueue.FilterWrite else AeKqueue.FilterRead) in kevents
    case Bits(rbits, wbits) => fd in if write then wbits else rbits
  }

  /** No backend loses a descriptor reported as ready for reading or for writing. For
      select this needs the scan to reach every registered descriptor. What becomes of
      errors and hang-ups, EpollReportIsCalled and EvportReportIsCalled say. */
  lemma NothingReadyIsMissed(api: Api, masks: seq<Mask>, answer: Answer, fd: int, write: bool)
    requires Possible(api, masks, answer) && Reports(answer, fd, write)
    ensures exists i :: 0 <= i < |FiredBy(api, masks, answer)|
                        && var f := FiredBy(api, masks, answer)[i];
                           f.fd == fd && if write then f.mask.writable else f.mask.readable
  {
    var fired := FiredBy(api, masks, answer);
    match answer
    case ReadyList(ready) =>
      var i :| 0 <= i < |ready| && ready[i].fd == fd && if write then ready[i].revents.pout else ready[i].revents.pin;
      assert fired[i].fd == fd;
    case Kevents(kevents) =>
      var kevent := AeKqueue.Kevent(fd, if write then AeKqueue.FilterWrite else AeKqueue.FilterRead);
      var i :| 0 <= i < |kevents| && kevents[i] == kevent;
      assert fired[i].fd == fd;
    case Bits(rbits, wbits) =>
      AeSelect.ScanMissesNothing(masks, |masks|, fd, rbits, wbits);
      var i :| 0 <= i < |fired| && fired[i] == AeSelect.Scanned(masks, fd, rbits, wbits);
  }

  /** aeApiCreate of one of the four backends. */
  method NewApi(backend: Backend, ghost masks: seq<Mask>) returns (api: Api)
    requires forall fd :: 0 <= fd < |masks| ==> masks[fd] == NONE
    ensures api.Mirrors(masks) && fresh(api.Repr())
    ensures match backend
            case UseEvport => api.Evport?
            case UseEpoll => api.Epoll?
            case UseKqueue => api.Kqueue?
            case UseSelect => api.Select?
  {
    match backend
    case UseEvport =>
      var s := new AeEvport.ApiState(masks);
      api := Evport(s);
    case UseEpoll =>
      var s := new AeEpoll.ApiState(masks);
      api := Epoll(s);
    case UseKqueue =>
      var s := new AeKqueue.ApiState(masks);
      api := Kqueue(s);
    case UseSelect =>
      var s := new AeSelect.ApiState(masks);
      api := Select(s);
  }

  class EventLoop {
    const events: array<FileEvent>
    const fired: array<Fired>
    var maxfd: int
    const api: Api

    ghost function Repr(): set<object> {
      {this, events, fired} + api.Repr()
    }

    /** events, fired and the backend are separate objects. */
    ghost predicate Separate() {
      && this !in api.Repr() && events as object !in api.Repr() && fired as object !in api.Repr()
      && fired.Length == events.Length
    }

    ghost function Table(): seq<FileEvent>
      reads events
    {
      events[..]
    }

    ghost predicate Valid()
      reads Repr()
    {
      && Separate()
      && IsMaxFd(MasksOf(Table()), maxfd)
      && api.Mirrors(MasksOf(Table()))
    }

    /** aeCreateEventLoop, built with one of the four backends. The source
        initialises only the masks of the table; the rest is arbitrary. */
    constructor (setsize: nat, backend: Backend)
      ensures Valid() && fresh(Repr()) && maxfd == -1 && events.Length == setsize
      ensures forall fd :: 0 <= fd < setsize ==> events[fd].mask == NONE
      ensures match backend
              case UseEvport => api.Evport?
              case UseEpoll => api.Epoll?
              case UseKqueue => api.Kqueue?
              case UseSelect => api.Select?
    {
      var table := new FileEvent[setsize](_ => FileEvent(NONE, 0, 0, 0));
      var chosen := NewApi(backend, MasksOf(table[..]));
      hide Api.Mirrors, Api.Repr;
      events := table;
      fired := new Fired[setsize](_ => Fired(-1, NONE));
      maxfd := -1;
      api := chosen;
    }

    /** aeCreateFileEvent */
    method CreateFileEvent(fd: int, mask: Mask, proc: ProcId, data: ClientData) returns (rc: int)
      requires Valid() && fd >= 0 && !mask.Empty()
      modifies Repr() - {fired}
      ensures Valid()
      ensures rc == if fd >= events.Length then -1 else 0
      ensures rc == 0 ==>
                && (mask.readable ==> events[fd].mask.readable && events[fd].rproc == proc)
                && (mask.writable ==> events[fd].mask.writable && events[fd].wproc == proc)
                && events[fd].data == data
      ensures Table() == After(old(Table()), Create(fd, mask, proc, data))
    {
      if fd >= events.Length {
        return -1;
      }
      hide Api.Mirrors, Api.Repr;
      ghost var masks := MasksOf(events[..]);
      rc := api.AddEvent(fd, mask, masks, events[fd].mask);
      if rc == -1 {
        return -1;
      }
      var fe := events[fd];
      events[fd] := FileEvent(fe.mask.Or(mask),
                              if mask.readable then proc else fe.rproc,
                              if mask.writable then proc else fe.wproc,
                              data);
      if fd > maxfd {
        maxfd := fd;
      }
      assert MasksOf(events[..]) == Added(masks, fd, mask);
      rc := 0;
    }

    /** The loop of aeDeleteFileEvent that looks for the next lower registered descriptor. */
    method LowerMaxFd()
      requires 0 <= maxfd < events.Length
      requires forall fd :: maxfd <= fd < events.Length ==> events[fd].mask == NONE
      modifies this`maxfd
      ensures IsMaxFd(MasksOf(Table()), maxfd)
    {
      var j := maxfd - 1;
      while j >= 0 && events[j].mask == NONE
        invariant -1 <= j < maxfd
        invariant forall k :: j < k < events.Length ==> events[k].mask == NONE
      {
        j := j - 1;
      }
      maxfd := j;
    }

    /** aeDeleteFileEvent: the table is reduced and maxfd lowered before the backend is told. */
    method DeleteFileEvent(fd: int, mask: Mask)
      requires Valid() && fd >= 0
      modifies Repr() - {fired}
      ensures Valid()
      ensures Table() == After(old(Table()), Delete(fd, mask))
    {
      if fd >= events.Length {
        return;
      }
      var fe := events[fd];
      if fe.mask == NONE {
        assert fe.mask.Without(mask) == NONE;
        assert events[..] == old(events[..])[fd := fe.(mask := NONE)];
        return;
      }
      hide Api.Mirrors, Api.Repr;
      ghost var masks := MasksOf(events[..]);
      events[fd] := fe.(mask := fe.mask.Without(mask));
      assert MasksOf(events[..]) == Removed(masks, fd, mask);
      if fd == maxfd && events[fd].mask == NONE {
        LowerMaxFd();
      }
      api.DelEvent(fd, mask, masks, events[fd].mask);
    }

    /** One operation of a callback. */
    method Perform(op: FileOp)
      requires Valid() && Proper(op)
      modifies Repr() - {fired}
      ensures Valid() && Table() == After(old(Table()), op)
    {
      match op
      case Create(fd, mask, proc, data) => var _ := CreateFileEvent(fd, mask, proc, data);
      case Delete(fd, mask) => DeleteFileEvent(fd, mask);
    }

    /** Any run of operations, as a callback or the code between two polls makes
        them: the table is the fold of the operations, and at the end as after
        every step the backend and maxfd agree with it. */
    method PerformAll(ops: seq<FileOp>)
      requires Valid() && AllProper(ops)
      modifies Repr() - {fired}
      ensures Valid() && Table() == AfterAll(old(Table()), ops)
      ensures -1 <= maxfd < events.Length && (maxfd >= 0 ==> events[maxfd].mask.readable || events[maxfd].mask.writable)
      ensures forall f :: maxfd < f < events.Length ==> !events[f].mask.readable && !events[f].mask.writable
    {
      var i := 0;
      assert ops[..0] == [];
      while i < |ops|
        invariant 0 <= i <= |ops| && Valid()
        invariant Table() == AfterAll(old(Table()), ops[..i])
      {
        Perform(ops[i]);
        assert ops[..i + 1][..i] == ops[..i];
        i := i + 1;
      }
      assert ops[..|ops|] == ops;
    }

    /** aeApiPoll of the chosen backend. */
    method Poll(answer: Answer) returns (numevents: int)
      requires Valid() && Possible(api, MasksOf(Table()), answer)
      modifies Repr() - {events}
      ensures Valid() && maxfd == old(maxfd)
      ensures 0 <= numevents <= fired.Length
      ensures fired[..numevents] == FiredBy(api, MasksOf(Table()), answer)
    {
      ghost var masks := MasksOf(events[..]);
      match api
      case Evport(s) => numevents := s.Poll(answer.ready, fired, masks);
      case Epoll(s) => numevents := s.Poll(answer.ready, fired, masks);
      case Kqueue(s) => numevents := s.Poll(answer.kevents, fired, masks);
      case Select(s) =>
        assert s.Mirrors(masks);
        assert forall fd :: fd in answer.rbits ==> fd in s.rfds;
        assert forall fd :: fd in answer.wbits ==> fd in s.wfds;
        numevents := s.Poll(maxfd, answer.rbits, answer.wbits, MasksOf(events[..]), fired);
    }
  }
}
