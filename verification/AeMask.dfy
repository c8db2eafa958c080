/** Event masks and the records shared by the event loop and its polling backends
    (Clang/aio/ae/ae.h). */
module AeMask {

  /** The two bits AE_READABLE and AE_WRITABLE of an event mask. */
  datatype Mask = Mask(readable: bool, writable: bool) {
    predicate Empty() {
      !readable && !writable
    }

    function Or(that: Mask): Mask {
      Mask(readable || that.readable, writable || that.writable)
    }

    function And(that: Mask): Mask {
      Mask(readable && that.readable, writable && that.writable)
    }

    function Without(that: Mask): Mask {
      Mask(readable && !that.readable, writable && !that.writable)
    }
  }

  const NONE := Mask(false, false)

  /** What a kernel says about one descriptor: POLLIN, POLLOUT, POLLERR, POLLHUP. */
  datatype Revents = Revents(pin: bool, pout: bool, perr: bool, phup: bool)

  /** A descriptor the kernel found ready, with what it found. */
  datatype Ready = Ready(fd: int, revents: Revents)

  /** One entry of the fired array. */
  datatype Fired = Fired(fd: int, mask: Mask)

  /** The mask table after aeCreateFileEvent. */
  ghost function Added(masks: seq<Mask>, fd: int, mask: Mask): seq<Mask>
    requires 0 <= fd < |masks|
  {
    masks[fd := masks[fd].Or(mask)]
  }

  /** The mask table after aeDeleteFileEvent. */
  ghost function Removed(masks: seq<Mask>, fd: int, mask: Mask): seq<Mask>
    requires 0 <= fd < |masks|
  {
    masks[fd := masks[fd].Without(mask)]
  }

  /** Which descriptors are registered. */
  ghost predicate Registered(masks: seq<Mask>, fd: int) {
    0 <= fd < |masks| && !masks[fd].Empty()
  }

  /** What a kernel may hand back from one poll: every descriptor at most once
      and only descriptors the table has registered. */
  ghost predicate PossibleReady(masks: seq<Mask>, ready: seq<Ready>) {
    && (forall i :: 0 <= i < |ready| ==> Registered(masks, ready[i].fd))
    && (forall i, j :: 0 <= i < j < |ready| ==> ready[i].fd != ready[j].fd)
  }

  /** Distinct registered descriptors cannot outnumber the table: the fired
      array, which has one slot a descriptor, is never overrun. */
  lemma {:induction false} ReadyFits(masks: seq<Mask>, ready: seq<Ready>)
    requires PossibleReady(masks, ready)
    ensures |ready| <= |masks|
    decreases |masks|
  {
    if masks == [] {
      assert ready != [] ==> Registered(masks, ready[0].fd);
    } else {
      var top := |masks| - 1;
      if k :| 0 <= k < |ready| && ready[k].fd == top {
        var rest := ready[..k] + ready[k + 1..];
        forall i | 0 <= i < |rest| ensures Registered(masks[..top], rest[i].fd) {
          var j := if i < k then i else i + 1;
          assert rest[i] == ready[j] && Registered(masks, ready[j].fd);
        }
        ReadyFits(masks[..top], rest);
      } else {
        forall i | 0 <= i < |ready| ensures Registered(masks[..top], ready[i].fd) {
          assert Registered(masks, ready[i].fd);
        }
        ReadyFits(masks[..top], ready);
      }
    }
  }
}
