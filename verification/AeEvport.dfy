/** The event-port backend (Clang/aio/ae/ae_evport.c). */
module AeEvport {
  import opened AeMask

  const MAX_EVENT_BATCHSZ := 512

  /** One event returned by port_getn: the descriptor, the poll bits, and the
      user word given to port_associate (the mask). */
  datatype PortEvent = PortEvent(obj: int, events: Revents, user: Mask)

  /** The kernel side of an event port: its associations. */
  class Port {
    var assoc: map<int, Mask>

    constructor ()
      ensures assoc == map[]
    {
      assoc := map[];
    }

    /** Replaces whatever was associated with fd before. */
    method Associate(fd: int, mask: Mask) returns (rc: int)
      modifies this
      ensures rc == 0 && assoc == old(assoc)[fd := mask]
    {
      assoc := assoc[fd := mask];
      rc := 0;
    }

    /** Fails exactly when fd is not associated. */
    method Dissociate(fd: int) returns (rc: int)
      modifies this
      ensures fd in old(assoc) ==> rc == 0 && assoc == old(assoc) - {fd}
      ensures fd !in old(assoc) ==> rc == -1 && assoc == old(assoc)
    {
      if fd !in assoc {
        return -1;
      }
      assoc := assoc - {fd};
      rc := 0;
    }

    /** Hands over the ready descriptors; each one loses its association. */
    method GetN(ready: seq<Ready>) returns (events: seq<PortEvent>)
      requires forall i :: 0 <= i < |ready| ==> ready[i].fd in assoc
      modifies this
      ensures |events| == |ready|
      ensures forall i :: 0 <= i < |ready| ==>
                events[i] == PortEvent(ready[i].fd, ready[i].revents, old(assoc)[ready[i].fd])
      ensures forall fd :: fd in assoc <==> fd in old(assoc) && forall i :: 0 <= i < |ready| ==> ready[i].fd != fd
      ensures forall fd :: fd in assoc ==> assoc[fd] == old(assoc)[fd]
    {
      events := seq(|ready|, i requires 0 <= i < |ready| reads this requires ready[i].fd in assoc =>
                      PortEvent(ready[i].fd, ready[i].revents, assoc[ready[i].fd]));
      assoc := map fd | fd in assoc && (forall i :: 0 <= i < |ready| ==> ready[i].fd != fd) :: assoc[fd];
    }
  }

  class ApiState {
    const port: Port
    var npending: int
    const pendingFds: array<int>
    const pendingMasks: array<Mask>

    ghost predicate Shape()
      reads this
    {
      && pendingFds.Length == pendingMasks.Length == MAX_EVENT_BATCHSZ
      && 0 <= npending <= MAX_EVENT_BATCHSZ
    }

    ghost function Repr(): set<object> {
      {this, port, pendingFds, pendingMasks}
    }

    ghost predicate IsPending(fd: int)
      requires Shape()
      reads this, pendingFds
    {
      exists i :: 0 <= i < npending && pendingFds[i] == fd
    }

    /** The rule of the file's opening comment, against the event table: a
        registered descriptor is EITHER associated in the kernel OR pending,
        never both, in each case with the mask of the table; nothing else is
        associated or pending, and nothing is pending twice. */
    ghost predicate Mirrors(masks: seq<Mask>)
      reads this, port, pendingFds, pendingMasks
    {
      && Shape()
      && (forall fd :: fd in port.assoc ==> Registered(masks, fd) && port.assoc[fd] == masks[fd])
      && (forall i :: 0 <= i < npending && pendingFds[i] != -1 ==>
            Registered(masks, pendingFds[i]) && pendingMasks[i] == masks[pendingFds[i]] && pendingFds[i] !in port.assoc)
      && (forall i, j :: 0 <= i < j < npending && pendingFds[i] != -1 ==> pendingFds[i] != pendingFds[j])
      && (forall fd :: Registered(masks, fd) ==> fd in port.assoc || IsPending(fd))
    }

    constructor (ghost masks: seq<Mask>)
      requires forall fd :: 0 <= fd < |masks| ==> masks[fd] == NONE
      ensures Mirrors(masks) && npending == 0 && fresh(Repr())
    {
      port := new Port();
      npending := 0;
      pendingFds := new int[MAX_EVENT_BATCHSZ](_ => -1);
      pendingMasks := new Mask[MAX_EVENT_BATCHSZ](_ => NONE);
    }

    /** aeApiLookupPending */
    method LookupPending(fd: int) returns (index: int)
      requires Shape()
      ensures index == -1 ==> !IsPending(fd)
      ensures index != -1 ==> 0 <= index < npending && pendingFds[index] == fd
    {
      var i := 0;
      while i < npending
        invariant 0 <= i <= npending
        invariant forall j :: 0 <= j < i ==> pendingFds[j] != fd
      {
        if pendingFds[i] == fd {
          return i;
        }
        i := i + 1;
      }
      return -1;
    }

    /** aeApiAddEvent: the table still holds the old mask when this is called. */
    method AddEvent(fd: int, mask: Mask, ghost masks: seq<Mask>, current: Mask) returns (rc: int)
      requires Mirrors(masks) && 0 <= fd < |masks| && current == masks[fd]
      requires !masks[fd].Or(mask).Empty()
      modifies Repr()
      ensures rc == 0 && Mirrors(Added(masks, fd, mask))
      ensures npending == old(npending)
      ensures old(IsPending(fd)) ==> port.assoc == old(port.assoc)
      ensures !old(IsPending(fd)) ==> port.assoc == old(port.assoc)[fd := masks[fd].Or(mask)]
    {
      var fullmask := mask.Or(current);
      var pfd := LookupPending(fd);
      if pfd != -1 {
        AddPending(fd, mask, masks, pfd, fullmask);
        return 0;
      }
      rc := port.Associate(fd, fullmask);
    }

    /** The case in which the descriptor is pending. */
    method AddPending(fd: int, mask: Mask, ghost masks: seq<Mask>, pfd: int, fullmask: Mask)
      requires Mirrors(masks) && 0 <= fd < |masks| && fullmask == mask.Or(masks[fd])
      requires 0 <= pfd < npending && pendingFds[pfd] == fd
      modifies pendingMasks
      ensures Mirrors(Added(masks, fd, mask))
    {
      pendingMasks[pfd] := pendingMasks[pfd].Or(fullmask);
      assert forall f :: Registered(Added(masks, fd, mask), f) ==> Registered(masks, f);
    }

    /** aeApiDelEvent: the table already holds the reduced mask. */
    method DelEvent(fd: int, mask: Mask, ghost masks: seq<Mask>, current: Mask)
      requires Mirrors(masks) && Registered(masks, fd) && current == masks[fd].Without(mask)
      modifies Repr()
      ensures Mirrors(Removed(masks, fd, mask))
      ensures npending == old(npending)
      ensures old(IsPending(fd)) ==> port.assoc == old(port.assoc)
    {
      var pfd := LookupPending(fd);
      if pfd != -1 {
        DelPending(fd, mask, masks, pfd);
        return;
      }
      DelAssociated(fd, mask, masks, current);
    }

    /** The case of aeApiDelEvent in which the descriptor is associated. */
    method DelAssociated(fd: int, mask: Mask, ghost masks: seq<Mask>, current: Mask)
      requires Mirrors(masks) && Registered(masks, fd) && current == masks[fd].Without(mask) && !IsPending(fd)
      modifies port
      ensures Mirrors(Removed(masks, fd, mask))
    {
      if current == NONE {
        var rc := port.Dissociate(fd);
        assert rc == 0;  // so the call to abort is unreachable
      } else {
        var rc := port.Associate(fd, current);
        assert rc == 0;  // so the call to abort is unreachable
      }
    }

    /** The case of aeApiDelEvent in which the descriptor is pending. */
    method DelPending(fd: int, mask: Mask, ghost masks: seq<Mask>, pfd: int)
      requires Mirrors(masks) && Registered(masks, fd) && 0 <= pfd < npending && pendingFds[pfd] == fd
      modifies pendingFds, pendingMasks
      ensures Mirrors(Removed(masks, fd, mask))
    {
      pendingMasks[pfd] := pendingMasks[pfd].Without(mask);
      if pendingMasks[pfd] == NONE {
        pendingFds[pfd] := -1;
      }
      forall f | Registered(Removed(masks, fd, mask), f) && f !in port.assoc
        ensures IsPending(f)
      {
        assert Registered(masks, f);
        var k :| 0 <= k < npending && old(pendingFds[k]) == f;
        assert pendingFds[k] == f;
      }
    }

    /** The first loop of aeApiPoll: everything still pending goes back into the kernel. */
    method Reassociate(ghost masks: seq<Mask>)
      requires Mirrors(masks)
      modifies Repr()
      ensures Mirrors(masks) && npending == 0
      ensures forall fd :: fd in port.assoc <==> Registered(masks, fd)
    {
      var i := 0;
      while i < npending
        invariant 0 <= i <= npending && Mirrors(masks)
        invariant forall j :: 0 <= j < i ==> pendingFds[j] == -1
      {
        if pendingFds[i] != -1 {
          ReassociateOne(masks, i);
        }
        i := i + 1;
      }
      npending := 0;
    }

    method ReassociateOne(ghost masks: seq<Mask>, i: int)
      requires Mirrors(masks) && 0 <= i < npending && pendingFds[i] != -1
      modifies port, pendingFds, pendingMasks
      ensures Mirrors(masks) && pendingFds[i] == -1
      ensures forall j :: 0 <= j < npending && j != i ==> pendingFds[j] == old(pendingFds[j])
    {
      var rc := port.Associate(pendingFds[i], pendingMasks[i]);
      assert rc == 0;  // so the call to abort is unreachable
      pendingMasks[i] := NONE;
      pendingFds[i] := -1;
      forall f | Registered(masks, f) && f !in port.assoc
        ensures IsPending(f)
      {
        var k :| 0 <= k < npending && old(pendingFds[k]) == f;
        assert pendingFds[k] == f;
      }
    }

    /** The second loop of aeApiPoll: records each event as fired and as pending. */
    method RecordEvents(event: seq<PortEvent>, fired: array<Fired>)
      requires Shape() && npending == |event| <= fired.Length
      modifies pendingFds, pendingMasks, fired
      ensures forall i :: 0 <= i < npending ==>
                && pendingFds[i] == event[i].obj
                && pendingMasks[i] == event[i].user
                && fired[i] == Fired(event[i].obj, Mask(event[i].events.pin, event[i].events.pout))
    {
      var i := 0;
      while i < |event|
        invariant 0 <= i <= |event|
        invariant forall j :: 0 <= j < i ==>
                    && pendingFds[j] == event[j].obj
                    && pendingMasks[j] == event[j].user
                    && fired[j] == Fired(event[j].obj, Mask(event[j].events.pin, event[j].events.pout))
      {
        fired[i] := Fired(event[i].obj, Mask(event[i].events.pin, event[i].events.pout));
        pendingFds[i] := event[i].obj;
        pendingMasks[i] := event[i].user;
        i := i + 1;
      }
    }

    /** aeApiPoll. The kernel's answer is a parameter; it is empty when port_getn
        ends with no event (ETIME or EINTR). */
    method Poll(answer: seq<Ready>, fired: array<Fired>, ghost masks: seq<Mask>) returns (nevents: int)
      requires Mirrors(masks) && fired.Length == |masks|
      requires PossibleReady(masks, answer) && |answer| <= MAX_EVENT_BATCHSZ
      modifies Repr(), fired
      ensures Mirrors(masks)
      ensures nevents == npending == |answer| <= fired.Length
      ensures forall i :: 0 <= i < nevents ==>
                && pendingFds[i] == answer[i].fd
                && fired[i] == Fired(answer[i].fd, Mask(answer[i].revents.pin, answer[i].revents.pout))
    {
      Reassociate(masks);
      ReadyFits(masks, answer);
      var event := port.GetN(answer);
      nevents := |event|;
      npending := nevents;
      RecordEvents(event, fired);
      forall fd | Registered(masks, fd) && fd !in port.assoc
        ensures IsPending(fd)
      {
        var i :| 0 <= i < |answer| && answer[i].fd == fd;
        assert pendingFds[i] == fd;
      }
    }
  }
}
