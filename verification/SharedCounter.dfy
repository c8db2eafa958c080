/** The two processes of devzero in Clang/APUE/coding/shm.c: a counter in shared
    memory, and a pipe each way to take turns. */
module SharedCounter {

  /** Where the parent is: in update, before and after reading the counter; before
      TELL_CHILD; in WAIT_CHILD; through with its loop. */
  datatype ParentAt = PRead | PWrite(seen: int) | PTell | PWait | PDone

  datatype ChildAt = CWait | CRead | CWrite(seen: int) | CTell | CDone

  /** area is the counter; pipe1 and pipe2 are the bytes in the pipes to the
      child and to the parent; pi and ci the loop variables; wrong counts the
      updates that did not return the loop variable. */
  datatype State = State(nloops: nat, area: int, pipe1: nat, pipe2: nat,
                         parent: ParentAt, pi: nat, child: ChildAt, ci: nat, wrong: nat)

  function ParentLoop(s: State): State {
    s.(parent := if s.pi < s.nloops then PRead else PDone)
  }

  function ChildLoop(s: State): State {
    s.(child := if s.ci < s.nloops + 1 then CWait else CDone)
  }

  /** After fork: the parent's loop starts at 0, the child's at 1. */
  function Start(nloops: nat): State {
    ChildLoop(ParentLoop(State(nloops, 0, 0, 0, PDone, 0, CDone, 1, 0)))
  }

  predicate ParentCanStep(s: State) {
    s.parent != PDone && (s.parent == PWait ==> s.pipe2 > 0)
  }

  predicate ChildCanStep(s: State) {
    s.child != CDone && (s.child == CWait ==> s.pipe1 > 0)
  }

  /** One step of the parent; reading and writing the counter are two steps. */
  function ParentStep(s: State): State
    requires ParentCanStep(s)
  {
    match s.parent
    case PRead => s.(parent := PWrite(s.area))
    case PWrite(seen) => s.(parent := PTell, area := seen + 1, wrong := s.wrong + if seen != s.pi then 1 else 0)
    case PTell => s.(parent := PWait, pipe1 := s.pipe1 + 1)
    case PWait => ParentLoop(s.(pipe2 := s.pipe2 - 1, pi := s.pi + 2))
  }

  function ChildStep(s: State): State
    requires ChildCanStep(s)
  {
    match s.child
    case CWait => s.(child := CRead, pipe1 := s.pipe1 - 1)
    case CRead => s.(child := CWrite(s.area))
    case CWrite(seen) => s.(child := CTell, area := seen + 1, wrong := s.wrong + if seen != s.ci then 1 else 0)
    case CTell => ChildLoop(s.(pipe2 := s.pipe2 + 1, ci := s.ci + 2))
  }

  /** Between its wait and its tell a process has the counter to itself. */
  predicate ParentInside(s: State) {
    s.parent.PRead? || s.parent.PWrite? || s.parent.PTell?
  }

  predicate ChildInside(s: State) {
    s.child.CRead? || s.child.CWrite? || s.child.CTell?
  }

  predicate Idle(s: State) {
    s.child == if s.ci < s.nloops + 1 then CWait else CDone
  }

  /** The turn is in exactly one place: with the parent, in the first pipe, with
      the child, in the second pipe, or both loops are over. */
  ghost predicate Inv(s: State) {
    && s.wrong == 0
    && (s.pi < s.nloops <==> s.parent != PDone)
    && if s.parent == PDone then
         s.pipe1 == 0 == s.pipe2 && s.child == CDone && s.ci == s.pi + 1 && s.area == s.pi
         && s.nloops <= s.pi <= s.nloops + 1 && s.pi % 2 == 0
       else
         && s.pi % 2 == 0
         && if ParentInside(s) then
              && s.pipe1 == 0 == s.pipe2 && s.ci == s.pi + 1 && Idle(s)
              && (s.parent.PWrite? ==> s.parent.seen == s.area)
              && s.area == s.pi + if s.parent.PTell? then 1 else 0
            else if s.pipe2 == 0 then
              && s.ci == s.pi + 1
              && (if ChildInside(s) then s.pipe1 == 0 else s.pipe1 == 1 && Idle(s))
              && (s.child.CWrite? ==> s.child.seen == s.area)
              && s.area == s.pi + if s.child.CTell? then 2 else 1
            else
              s.pipe1 == 0 && s.pipe2 == 1 && s.ci == s.pi + 3 && Idle(s) && s.area == s.pi + 2
  }

  lemma StartHolds(nloops: nat)
    ensures Inv(Start(nloops))
  {
  }

  lemma ParentKeeps(s: State)
    requires Inv(s) && ParentCanStep(s)
    ensures Inv(ParentStep(s))
  {
  }

  lemma ChildKeeps(s: State)
    requires Inv(s) && ChildCanStep(s)
    ensures Inv(ChildStep(s))
  {
  }

  /** Every step of either process brings the end nearer. */
  function Left(s: State): int {
    (if s.parent == PDone then 0 else 8 * (s.nloops + 1 - s.pi))
    - (match s.parent case PRead => 0 case PWrite(_) => 1 case PTell => 2 case PWait => 3 case PDone => 0)
    + (if s.child == CDone then 0 else 8 * (s.nloops + 2 - s.ci))
    - (match s.child case CWait => 0 case CRead => 1 case CWrite(_) => 2 case CTell => 3 case CDone => 0)
  }

  /** An interleaving: at each step the parent or the child moves. */
  ghost predicate IsRun(run: seq<State>, parentMoves: seq<bool>) {
    && |run| == |parentMoves| + 1
    && forall i :: 0 <= i < |parentMoves| ==>
         if parentMoves[i] then ParentCanStep(run[i]) && run[i + 1] == ParentStep(run[i])
         else ChildCanStep(run[i]) && run[i + 1] == ChildStep(run[i])
  }

  /** In every interleaving, for every number of loops: never both processes at
      the counter, and every update returns the loop variable of its process. */
  lemma {:induction false} Exclusive(nloops: nat, run: seq<State>, parentMoves: seq<bool>, k: nat)
    requires IsRun(run, parentMoves) && run[0] == Start(nloops) && k < |run|
    ensures Inv(run[k]) && run[k].nloops == nloops
    ensures !(ParentInside(run[k]) && ChildInside(run[k])) && run[k].wrong == 0
    ensures run[k].parent.PWrite? ==> run[k].parent.seen == run[k].pi
    ensures run[k].child.CWrite? ==> run[k].child.seen == run[k].ci
  {
    if k == 0 {
      StartHolds(nloops);
    } else {
      Exclusive(nloops, run, parentMoves, k - 1);
      if parentMoves[k - 1] {
        ParentKeeps(run[k - 1]);
      } else {
        ChildKeeps(run[k - 1]);
      }
    }
  }

  /** No run gets stuck: one process can move until both loops are over, and then
      the counter is the number of updates, nloops rounded up to an even number,
      and no byte is left in a pipe. */
  lemma NoDeadlock(nloops: nat, run: seq<State>, parentMoves: seq<bool>, k: nat)
    requires IsRun(run, parentMoves) && run[0] == Start(nloops) && k < |run|
    ensures var s := run[k];
            && (ParentCanStep(s) || ChildCanStep(s) || (s.parent == PDone && s.child == CDone))
            && (s.parent == PDone ==>
                  s.child == CDone && s.area == nloops + nloops % 2 && s.pipe1 == 0 == s.pipe2)
  {
    Exclusive(nloops, run, parentMoves, k);
  }

  lemma ParentNearer(s: State)
    requires Inv(s) && ParentCanStep(s)
    ensures Left(ParentStep(s)) < Left(s)
  {
  }

  lemma ChildNearer(s: State)
    requires Inv(s) && ChildCanStep(s)
    ensures Left(ChildStep(s)) < Left(s)
  {
  }

  lemma SomethingLeft(s: State)
    requires Inv(s)
    ensures Left(s) >= 0
  {
  }

  /** Every run is finite: its length is bounded by what was left at the start. */
  lemma {:induction false} RunsEnd(nloops: nat, run: seq<State>, parentMoves: seq<bool>, k: nat)
    requires IsRun(run, parentMoves) && run[0] == Start(nloops) && k < |run|
    ensures k + Left(run[k]) <= Left(run[0]) && Left(run[k]) >= 0
  {
    hide Inv, Left, ParentStep, ChildStep, ParentCanStep, ChildCanStep, Start;
    Exclusive(nloops, run, parentMoves, k);
    SomethingLeft(run[k]);
    if k > 0 {
      Exclusive(nloops, run, parentMoves, k - 1);
      RunsEnd(nloops, run, parentMoves, k - 1);
      if parentMoves[k - 1] {
        ParentNearer(run[k - 1]);
      } else {
        ChildNearer(run[k - 1]);
      }
    }
  }
}
