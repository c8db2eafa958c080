/** The select backend (Clang/aio/ae/ae_select.c). */
module AeSelect {
  import opened AeMask

  /** The entry the scan of aeApiPoll writes for one registered descriptor. */
  function Scanned(masks: seq<Mask>, fd: nat, rbits: set<int>, wbits: set<int>): Fired
    requires fd < |masks|
  {
    Fired(fd, Mask(masks[fd].readable && fd in rbits, masks[fd].writable && fd in wbits))
  }

  /** The scan of the descriptors below n: one entry a registered descriptor, in order. */
  function Scan(masks: seq<Mask>, n: nat, rbits: set<int>, wbits: set<int>): seq<Fired>
    requires n <= |masks|
  {
    if n == 0 then []
    else
      Scan(masks, n - 1, rbits, wbits)
      + if masks[n - 1].Empty() then [] else [Scanned(masks, n - 1, rbits, wbits)]
  }

  /** The scan never overruns the fired array and reports only registered descriptors. */
  lemma {:induction false} ScanFits(masks: seq<Mask>, n: nat, rbits: set<int>, wbits: set<int>)
    requires n <= |masks|
    ensures |Scan(masks, n, rbits, wbits)| <= n
    ensures forall f :: f in Scan(masks, n, rbits, wbits) ==>
              Registered(masks, f.fd) && f == Scanned(masks, f.fd, rbits, wbits)
  {
    if n > 0 {
      ScanFits(masks, n - 1, rbits, wbits);
    }
  }

  /** No registered descriptor below n is missed. */
  lemma {:induction false} ScanMissesNothing(masks: seq<Mask>, n: nat, fd: nat, rbits: set<int>, wbits: set<int>)
    requires fd < n <= |masks| && Registered(masks, fd)
    ensures Scanned(masks, fd, rbits, wbits) in Scan(masks, n, rbits, wbits)
  {
    if fd < n - 1 {
      ScanMissesNothing(masks, n - 1, fd, rbits, wbits);
    }
  }

  /** Scanning up to the greatest registered descriptor is as good as scanning
      the whole table: this is what maxfd is for. */
  lemma {:induction false} ScanStopsAtMaxfd(masks: seq<Mask>, maxfd: int, rbits: set<int>, wbits: set<int>)
    requires -1 <= maxfd < |masks|
    requires forall fd :: maxfd < fd < |masks| ==> masks[fd].Empty()
    ensures Scan(masks, maxfd + 1, rbits, wbits) == Scan(masks, |masks|, rbits, wbits)
  {
    var n := maxfd + 1;
    while n < |masks|
      invariant maxfd < n <= |masks|
      invariant Scan(masks, maxfd + 1, rbits, wbits) == Scan(masks, n, rbits, wbits)
    {
      n := n + 1;
    }
  }

  class ApiState {
    var rfds: set<int>
    var wfds: set<int>

    ghost function Repr(): set<object> {
      {this}
    }

    /** The descriptor sets hold exactly the bits of the table. */
    ghost predicate Mirrors(masks: seq<Mask>)
      reads this
    {
      && (forall fd :: fd in rfds <==> 0 <= fd < |masks| && masks[fd].readable)
      && (forall fd :: fd in wfds <==> 0 <= fd < |masks| && masks[fd].writable)
    }

    constructor (ghost masks: seq<Mask>)
      requires forall fd :: 0 <= fd < |masks| ==> masks[fd] == NONE
      ensures Mirrors(masks)
    {
      rfds, wfds := {}, {};
    }

    /** aeApiAddEvent */
    method AddEvent(fd: int, mask: Mask, ghost masks: seq<Mask>) returns (rc: int)
      requires Mirrors(masks) && 0 <= fd < |masks|
      modifies this
      ensures rc == 0 && Mirrors(Added(masks, fd, mask))
    {
      if mask.readable {
        rfds := rfds + {fd};
      }
      if mask.writable {
        wfds := wfds + {fd};
      }
      rc := 0;
    }

    /** aeApiDelEvent */
    method DelEvent(fd: int, mask: Mask, ghost masks: seq<Mask>)
      requires Mirrors(masks) && Registered(masks, fd)
      modifies this
      ensures Mirrors(Removed(masks, fd, mask))
    {
      if mask.readable {
        rfds := rfds - {fd};
      }
      if mask.writable {
        wfds := wfds - {fd};
      }
    }

    /** aeApiPoll. select is asked about the descriptors below maxfd + 1 and may
        answer with any part of the two sets; retval is the number of bits left
        set. Nothing is scanned when it is 0. */
    method Poll(maxfd: int, rbits: set<int>, wbits: set<int>, events: seq<Mask>, fired: array<Fired>)
      returns (numevents: int)
      requires Mirrors(events) && -1 <= maxfd < |events| == fired.Length
      requires forall fd :: maxfd < fd < |events| ==> events[fd].Empty()
      requires rbits <= rfds && wbits <= wfds
      modifies fired
      ensures 0 <= numevents <= fired.Length
      ensures rbits == {} == wbits ==> numevents == 0
      ensures !(rbits == {} == wbits) ==> fired[..numevents] == Scan(events, |events|, rbits, wbits)
    {
      numevents := 0;
      var retval := |rbits| + |wbits|;
      if retval > 0 {
        var j := 0;
        while j <= maxfd
          invariant 0 <= j <= maxfd + 1
          invariant 0 <= numevents <= j
          invariant fired[..numevents] == Scan(events, j, rbits, wbits)
        {
          if events[j] != NONE {
            var mask := NONE;
            if events[j].readable && j in rbits {
              mask := mask.Or(Mask(true, false));
            }
            if events[j].writable && j in wbits {
              mask := mask.Or(Mask(false, true));
            }
            fired[numevents] := Fired(j, mask);
            numevents := numevents + 1;
          }
          j := j + 1;
        }
        ScanStopsAtMaxfd(events, maxfd, rbits, wbits);
      }
    }
  }
}
