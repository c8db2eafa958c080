/** The kqueue backend (Clang/aio/ae/ae_kqueue.c). */
module AeKqueue {
  import opened AeMask

  datatype Filter = FilterRead | FilterWrite

  /** One kevent: the descriptor and the filter that fired. */
  datatype Kevent = Kevent(ident: int, filter: Filter)

  /** The kernel side of a kqueue: the enabled filters. */
  class Kqueue {
    var filters: set<Kevent>

    constructor ()
      ensures filters == {}
    {
      filters := {};
    }

    /** EV_ADD: adding an existing filter changes nothing. */
    method Add(fd: int, filter: Filter) returns (rc: int)
      modifies this
      ensures rc == 0 && filters == old(filters) + {Kevent(fd, filter)}
    {
      filters := filters + {Kevent(fd, filter)};
      rc := 0;
    }

    /** EV_DELETE: fails on an absent filter. */
    method Delete(fd: int, filter: Filter) returns (rc: int)
      modifies this
      ensures rc == (if Kevent(fd, filter) in old(filters) then 0 else -1)
      ensures filters == old(filters) - {Kevent(fd, filter)}
    {
      rc := if Kevent(fd, filter) in filters then 0 else -1;
      filters := filters - {Kevent(fd, filter)};
    }
  }

  function MaskOf(e: Kevent): Mask {
    Mask(e.filter == FilterRead, e.filter == FilterWrite)
  }

  /** What the kernel may return: enabled filters only, and no more of them than asked for. */
  ghost predicate PossibleKevents(masks: seq<Mask>, answer: seq<Kevent>) {
    && |answer| <= |masks|
    && forall i :: 0 <= i < |answer| ==>
         Registered(masks, answer[i].ident)
         && if answer[i].filter.FilterRead? then masks[answer[i].ident].readable else masks[answer[i].ident].writable
  }

  class ApiState {
    const kqueue: Kqueue

    ghost function Repr(): set<object> {
      {this, kqueue}
    }

    /** A filter is enabled exactly when the table has its bit. */
    ghost predicate Mirrors(masks: seq<Mask>)
      reads this, kqueue
    {
      forall fd, f :: Kevent(fd, f) in kqueue.filters <==>
                        0 <= fd < |masks| && if f.FilterRead? then masks[fd].readable else masks[fd].writable
    }

    constructor (ghost masks: seq<Mask>)
      requires forall fd :: 0 <= fd < |masks| ==> masks[fd] == NONE
      ensures Mirrors(masks) && fresh(Repr())
    {
      kqueue := new Kqueue();
    }

    /** aeApiAddEvent */
    method AddEvent(fd: int, mask: Mask, ghost masks: seq<Mask>) returns (rc: int)
      requires Mirrors(masks) && 0 <= fd < |masks|
      modifies Repr()
      ensures rc == 0 && Mirrors(Added(masks, fd, mask))
    {
      if mask.readable {
        rc := kqueue.Add(fd, FilterRead);
      }
      if mask.writable {
        rc := kqueue.Add(fd, FilterWrite);
      }
      rc := 0;
    }

    /** aeApiDelEvent: deleting a filter that is not enabled fails in the kernel,
        which the source ignores and which changes nothing. */
    method DelEvent(fd: int, mask: Mask, ghost masks: seq<Mask>)
      requires Mirrors(masks) && Registered(masks, fd)
      modifies Repr()
      ensures Mirrors(Removed(masks, fd, mask))
    {
      var rc;
      if mask.readable {
        rc := kqueue.Delete(fd, FilterRead);
      }
      if mask.writable {
        rc := kqueue.Delete(fd, FilterWrite);
      }
    }

    /** aeApiPoll: one fired entry a filter, so a descriptor may appear twice. */
    method Poll(answer: seq<Kevent>, fired: array<Fired>, ghost masks: seq<Mask>) returns (numevents: int)
      requires Mirrors(masks) && PossibleKevents(masks, answer) && fired.Length == |masks|
      modifies fired
      ensures numevents == |answer|
      ensures forall i :: 0 <= i < numevents ==> fired[i] == Fired(answer[i].ident, MaskOf(answer[i]))
    {
      numevents := |answer|;
      var j := 0;
      while j < numevents
        invariant 0 <= j <= numevents
        invariant forall i :: 0 <= i < j ==> fired[i] == Fired(answer[i].ident, MaskOf(answer[i]))
      {
        fired[j] := Fired(answer[j].ident, MaskOf(answer[j]));
        j := j + 1;
      }
    }
  }
}
