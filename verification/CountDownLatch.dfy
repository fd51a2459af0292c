/** A latch: any number of threads wait until the count, lowered by any number of others,
    is no longer positive. */
module CountDownLatch {
  import opened Totals

  datatype PC =
    | Outside
    // wait
    | Testing      // holds the mutex, at the while test
    | Asleep       // in cond_.wait
    | Woken        // out of the wait set, waiting for the mutex again
    | Passed       // before the guard unlocks
    // countDOwn
    | Entering     // holds the mutex, before --count_
    | Lowered      // before the test for 0
    | Leaving      // before the guard unlocks

  datatype Owner = Free | Held(tid: nat)

  datatype State = State(owner: Owner, pcs: map<nat, PC>, count: int, lowered: nat)

  datatype Action =
    | LockWait(t: nat) | Test(t: nat) | Spurious(t: nat) | Relock(t: nat) | UnlockWait(t: nat)
    | LockDown(t: nat) | Lower(t: nat) | Announce(t: nat) | UnlockDown(t: nat)

  predicate Holds(pc: PC) {
    !pc.Outside? && !pc.Asleep? && !pc.Woken?
  }

  predicate Enabled(s: State, a: Action) {
    && a.t in s.pcs
    && var pc := s.pcs[a.t];
       match a
       case LockWait(_) => pc.Outside? && s.owner == Free
       case Test(_) => pc.Testing?
       case Spurious(_) => pc.Asleep?
       case Relock(_) => pc.Woken? && s.owner == Free
       case UnlockWait(_) => pc.Passed?
       case LockDown(_) => pc.Outside? && s.owner == Free
       case Lower(_) => pc.Entering?
       case Announce(_) => pc.Lowered?
       case UnlockDown(_) => pc.Leaving?
  }

  /** pthread_cond_broadcast */
  function WakeAll(pcs: map<nat, PC>): map<nat, PC> {
    map t | t in pcs :: if pcs[t].Asleep? then Woken else pcs[t]
  }

  function Step(s: State, a: Action): State
    requires Enabled(s, a)
  {
    match a
    case LockWait(t) => s.(owner := Held(t), pcs := s.pcs[t := Testing])
    case Test(t) =>
      if s.count > 0 then s.(owner := Free, pcs := s.pcs[t := Asleep])
      else s.(pcs := s.pcs[t := Passed])
    case Spurious(t) => s.(pcs := s.pcs[t := Woken])
    case Relock(t) => s.(owner := Held(t), pcs := s.pcs[t := Testing])
    case UnlockWait(t) => s.(owner := Free, pcs := s.pcs[t := Outside])
    case LockDown(t) => s.(owner := Held(t), pcs := s.pcs[t := Entering])
    case Lower(t) => s.(count := s.count - 1, lowered := s.lowered + 1, pcs := s.pcs[t := Lowered])
    case Announce(t) =>
      if s.count == 0 then s.(pcs := WakeAll(s.pcs)[t := Leaving])
      else s.(pcs := s.pcs[t := Leaving])
    case UnlockDown(t) => s.(owner := Free, pcs := s.pcs[t := Outside])
  }

  /** The invariant, for a latch created with count `initial`. */
  ghost predicate Inv(s: State, initial: int) {
    && (forall t | t in s.pcs :: Holds(s.pcs[t]) <==> s.owner == Held(t))
    && (s.owner.Held? ==> s.owner.tid in s.pcs)
    && s.count == initial - s.lowered
    && (forall t | t in s.pcs && s.pcs[t].Passed? :: s.count <= 0)
    // a sleeper has something to wait for, or the thread that reached 0 is about to wake it
    && (forall t | t in s.pcs && s.pcs[t].Asleep? ::
          s.count > 0 || (s.count == 0 && s.owner.Held? && s.pcs[s.owner.tid].Lowered?))
  }

  lemma InvStep(s: State, a: Action, initial: int)
    requires Inv(s, initial) && Enabled(s, a)
    ensures Inv(Step(s, a), initial)
  {
  }

  /** A step moves only the thread that takes it, except that the one that finds the count at 0 wakes
      every sleeper. */
  lemma StepMoves(s: State, a: Action, u: nat)
    requires Enabled(s, a) && u in s.pcs && u != a.t
    ensures u in Step(s, a).pcs
    ensures Step(s, a).pcs[u] == if a.Announce? && s.count == 0 && s.pcs[u].Asleep? then Woken else s.pcs[u]
  {
  }

  ghost predicate Init(s: State, initial: int) {
    s.owner == Free && s.count == initial && s.lowered == 0 && forall t | t in s.pcs :: s.pcs[t] == Outside
  }

  ghost predicate IsRun(states: seq<State>, actions: seq<Action>, initial: int) {
    && |states| == |actions| + 1 && Init(states[0], initial)
    && forall i | 0 <= i < |actions| ::
         Enabled(states[i], actions[i]) && states[i + 1] == Step(states[i], actions[i])
  }

  lemma {:induction false} RunInv(states: seq<State>, actions: seq<Action>, initial: int, i: nat)
    requires IsRun(states, actions, initial) && i < |states|
    ensures Inv(states[i], initial)
  {
    if i > 0 {
      RunInv(states, actions, initial, i - 1);
      InvStep(states[i - 1], actions[i - 1], initial);
    }
  }

  /** How many of the first n actions are a --count_. */
  function Lowerings(actions: seq<Action>, n: nat): nat
    requires n <= |actions|
  {
    if n == 0 then 0 else Lowerings(actions, n - 1) + if actions[n - 1].Lower? then 1 else 0
  }

  /** The history counts just these actions, and so does the count itself. */
  lemma {:induction false} RunLowered(states: seq<State>, actions: seq<Action>, initial: int, i: nat)
    requires IsRun(states, actions, initial) && i < |states|
    ensures states[i].lowered == Lowerings(actions, i) && states[i].count == initial - Lowerings(actions, i)
  {
    if i > 0 { RunLowered(states, actions, initial, i - 1); }
  }

  /** How many calls of countDOwn began, and how many ended, among the first n actions. */
  function Begun(actions: seq<Action>, n: nat): nat
    requires n <= |actions|
  {
    if n == 0 then 0 else Begun(actions, n - 1) + if actions[n - 1].LockDown? then 1 else 0
  }

  function Ended(actions: seq<Action>, n: nat): nat
    requires n <= |actions|
  {
    if n == 0 then 0 else Ended(actions, n - 1) + if actions[n - 1].UnlockDown? then 1 else 0
  }

  function Inside(s: State): PC {
    if s.owner.Held? && s.owner.tid in s.pcs then s.pcs[s.owner.tid] else Outside
  }

  /** Every call lowers the count once: it has if it has ended, and has not if it is just beginning. */
  lemma {:induction false} RunCalls(states: seq<State>, actions: seq<Action>, initial: int, i: nat)
    requires IsRun(states, actions, initial) && i < |states|
    ensures Begun(actions, i) == Lowerings(actions, i) + if Inside(states[i]).Entering? then 1 else 0
    ensures Lowerings(actions, i) ==
            Ended(actions, i) + if Inside(states[i]).Lowered? || Inside(states[i]).Leaving? then 1 else 0
  {
    if i > 0 {
      RunCalls(states, actions, initial, i - 1);
      RunInv(states, actions, initial, i - 1);
    }
  }

  /** In every run a thread gets past the latch only after `initial` calls of countDOwn lowered it. */
  lemma PassesOnlyWhenDown(states: seq<State>, actions: seq<Action>, initial: int, i: nat, t: nat)
    requires IsRun(states, actions, initial) && i < |states|
    requires t in states[i].pcs && states[i].pcs[t] == Passed
    ensures Lowerings(actions, i) >= initial && states[i].lowered >= initial
  {
    RunInv(states, actions, initial, i);
    RunLowered(states, actions, initial, i);
  }

  /** In every run, once the count is down and the mutex is free, nobody sleeps. */
  lemma NobodyForgotten(states: seq<State>, actions: seq<Action>, initial: int, i: nat, t: nat)
    requires IsRun(states, actions, initial) && i < |states|
    requires Lowerings(actions, i) >= initial && states[i].owner == Free && t in states[i].pcs
    ensures states[i].pcs[t] != Asleep
  {
    RunInv(states, actions, initial, i);
    RunLowered(states, actions, initial, i);
  }

  // ----- every call in progress ends

  /** Nobody is inside an operation except sleepers. */
  ghost predicate Quiet(s: State) {
    forall t | t in s.pcs :: s.pcs[t].Outside? || s.pcs[t].Asleep?
  }

  /** A step of a call in progress, other than a spurious wakeup. */
  predicate Continues(a: Action) {
    !a.LockWait? && !a.LockDown? && !a.Spurious?
  }

  /** Unless all is quiet some call can go on: there is no deadlock. */
  lemma Progress(s: State, initial: int) returns (a: Action)
    requires Inv(s, initial) && !Quiet(s)
    ensures Enabled(s, a) && Continues(a)
  {
    var t: nat :| t in s.pcs && !s.pcs[t].Outside? && !s.pcs[t].Asleep?;
    var u := if s.owner.Held? then s.owner.tid else t;
    match s.pcs[u] {
      case Testing => a := Test(u);
      case Woken => a := Relock(u);
      case Passed => a := UnlockWait(u);
      case Entering => a := Lower(u);
      case Lowered => a := Announce(u);
      case Leaving => a := UnlockDown(u);
    }
  }

  /** How many steps a thread's call has before it, counting up to its sleep. */
  function Rank(pc: PC): nat {
    match pc
    case Outside => 0
    case Asleep => 0
    case Passed => 1
    case Testing => 2
    case Woken => 3
    case Leaving => 1
    case Lowered => 2
    case Entering => 3
  }

  function Ranks(pcs: map<nat, PC>): map<nat, nat> {
    map t | t in pcs :: Rank(pcs[t])
  }

  lemma RankMove(pcs: map<nat, PC>, t: nat, pc: PC)
    requires t in pcs
    ensures Total(Ranks(pcs[t := pc])) == Total(Ranks(pcs)) - Rank(pcs[t]) + Rank(pc)
  {
    assert Ranks(pcs[t := pc]) == Ranks(pcs)[t := Rank(pc)];
    TotalMove(Ranks(pcs), t, Rank(pc));
  }

  /** Threads that have yet to test the count for 0. */
  function Unannounced(pcs: map<nat, PC>): set<nat> {
    set t | t in pcs && (pcs[t].Entering? || pcs[t].Lowered?)
  }

  lemma UnannouncedStep(s: State, a: Action, initial: int)
    requires Inv(s, initial) && Enabled(s, a) && Continues(a)
    ensures var t := if a.Announce? then {a.t} else {};
            Unannounced(Step(s, a).pcs) == Unannounced(s.pcs) - t && t <= Unannounced(s.pcs)
  {
  }

  /** Every continuing step lowers (|Unannounced|, Total), so calls cannot go on for ever without
      new calls or spurious wakeups. */
  lemma StepsDecrease(s: State, a: Action, initial: int)
    requires Inv(s, initial) && Enabled(s, a) && Continues(a)
    ensures var s' := Step(s, a);
            |Unannounced(s'.pcs)| < |Unannounced(s.pcs)| ||
            (|Unannounced(s'.pcs)| == |Unannounced(s.pcs)| && Total(Ranks(s'.pcs)) < Total(Ranks(s.pcs)))
  {
    UnannouncedStep(s, a, initial);
    if !a.Announce? {
      var t, s' := a.t, Step(s, a);
      RankMove(s.pcs, t, s'.pcs[t]);
      assert s'.pcs == s.pcs[t := s'.pcs[t]];
    }
  }

  /** actions lead from s to r and are all steps of calls in progress. */
  ghost predicate Leads(s: State, actions: seq<Action>, r: State)
    decreases |actions|
  {
    if actions == [] then r == s
    else Enabled(s, actions[0]) && Continues(actions[0]) && Leads(Step(s, actions[0]), actions[1..], r)
  }

  /** From any reachable state the calls in progress can all go on until all is quiet, and then
      somebody waits only if the count is still positive. */
  lemma {:induction false} Settle(s: State, initial: int) returns (actions: seq<Action>, r: State)
    requires Inv(s, initial)
    ensures Leads(s, actions, r) && Inv(r, initial) && Quiet(r)
    ensures r.count > 0 || forall t | t in r.pcs :: r.pcs[t].Outside?
    decreases |Unannounced(s.pcs)|, Total(Ranks(s.pcs))
  {
    if Quiet(s) {
      actions, r := [], s;
    } else {
      var a := Progress(s, initial);
      InvStep(s, a, initial);
      StepsDecrease(s, a, initial);
      var rest;
      rest, r := Settle(Step(s, a), initial);
      actions := [a] + rest;
    }
  }
}
