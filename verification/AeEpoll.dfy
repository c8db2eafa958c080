/** The epoll backend (Clang/aio/ae/ae_epoll.c). */
module AeEpoll {
  import opened AeMask

  datatype CtlOp = CtlAdd | CtlMod | CtlDel

  /** The kernel side of an epoll descriptor: its interest list. */
  class Epoll {
    var interest: map<int, Mask>

    constructor ()
      ensures interest == map[]
    {
      interest := map[];
    }

    /** epoll_ctl: ADD fails on a present descriptor, MOD and DEL on an absent one. */
    method Ctl(op: CtlOp, fd: int, mask: Mask) returns (rc: int)
      modifies this
      ensures rc == 0 <==> (op.CtlAdd? <==> fd !in old(interest))
      ensures rc != 0 ==> rc == -1 && interest == old(interest)
      ensures rc == 0 && !op.CtlDel? ==> interest == old(interest)[fd := mask]
      ensures rc == 0 && op.CtlDel? ==> interest == old(interest) - {fd}
    {
      if op.CtlAdd? != (fd !in interest) {
        return -1;
      }
      interest := if op.CtlDel? then interest - {fd} else interest[fd := mask];
      rc := 0;
    }
  }

  /** The mask reported for one epoll event: errors and hang-ups count as writable. */
  function MaskOf(r: Revents): Mask {
    Mask(r.pin, r.pout || r.perr || r.phup)
  }

  class ApiState {
    const epoll: Epoll

    ghost function Repr(): set<object> {
      {this, epoll}
    }

    /** The interest list is exactly the event table. */
    ghost predicate Mirrors(masks: seq<Mask>)
      reads this, epoll
    {
      && (forall fd :: fd in epoll.interest <==> Registered(masks, fd))
      && (forall fd :: fd in epoll.interest ==> epoll.interest[fd] == masks[fd])
    }

    constructor (ghost masks: seq<Mask>)
      requires forall fd :: 0 <= fd < |masks| ==> masks[fd] == NONE
      ensures Mirrors(masks) && fresh(Repr())
    {
      epoll := new Epoll();
    }

    /** aeApiAddEvent: never an ADD of a present descriptor nor a MOD of an absent one. */
    method AddEvent(fd: int, mask: Mask, ghost masks: seq<Mask>, current: Mask) returns (rc: int)
      requires Mirrors(masks) && 0 <= fd < |masks| && current == masks[fd]
      requires !masks[fd].Or(mask).Empty()
      modifies Repr()
      ensures rc == 0 && Mirrors(Added(masks, fd, mask))
    {
      var op := if current == NONE then CtlAdd else CtlMod;
      rc := epoll.Ctl(op, fd, mask.Or(current));
    }

    /** aeApiDelEvent: the result of epoll_ctl is ignored by the source; it is always success. */
    method DelEvent(fd: int, delmask: Mask, ghost masks: seq<Mask>, current: Mask)
      requires Mirrors(masks) && Registered(masks, fd) && current == masks[fd].Without(delmask)
      modifies Repr()
      ensures Mirrors(Removed(masks, fd, delmask))
    {
      var mask := current.Without(delmask);
      var rc;
      if mask != NONE {
        rc := epoll.Ctl(CtlMod, fd, mask);
      } else {
        rc := epoll.Ctl(CtlDel, fd, NONE);
      }
      assert rc == 0;
    }

    /** aeApiPoll */
    method Poll(answer: seq<Ready>, fired: array<Fired>, ghost masks: seq<Mask>) returns (numevents: int)
      requires Mirrors(masks) && PossibleReady(masks, answer) && fired.Length == |masks|
      modifies fired
      ensures numevents == |answer| <= fired.Length
      ensures forall i :: 0 <= i < numevents ==> fired[i] == Fired(answer[i].fd, MaskOf(answer[i].revents))
    {
      ReadyFits(masks, answer);
      numevents := |answer|;
      var j := 0;
      while j < numevents
        invariant 0 <= j <= numevents
        invariant forall i :: 0 <= i < j ==> fired[i] == Fired(answer[i].fd, MaskOf(answer[i].revents))
      {
        fired[j] := Fired(answer[j].fd, MaskOf(answer[j].revents));
        j := j + 1;
      }
    }
  }
}
