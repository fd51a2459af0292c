/** The queue guarded by one mutex and one condition variable, for any number of threads.
    A thread is a program counter; a run interleaves the steps of all threads, and a sleeping
    thread may also wake for no reason. */
module BlockingQueue {
  import opened Totals

  datatype PC =
    | Idle
    // dequeue
    | Testing               // holds the mutex, at the while test
    | Asleep                // in cond.wait
    | Woken                 // out of the wait set, waiting for the mutex again
    | Taking                // saw a non-empty queue, before queue.front
    | Popping(top: int)     // before queue.pop_front
    | Returning(top: int)   // before unLock
    // enqueue
    | Pushing(x: int)       // holds the mutex, before queue.push_back
    | Notifying             // before cond.notify
    | Leaving               // before unLock

  datatype Owner = Free | Held(tid: nat)

  datatype State = State(
    owner: Owner, pcs: map<nat, PC>, queue: seq<int>,
    enqueued: seq<int>, dequeued: seq<int>)   // histories of push_back and pop_front

  datatype Action =
    | LockDequeue(t: nat) | LockEnqueue(t: nat, x: int)
    | Test(t: nat) | Front(t: nat) | Pop(t: nat) | UnlockDequeue(t: nat)
    | Spurious(t: nat) | Relock(t: nat)
    | Push(t: nat) | Notify(t: nat, woken: set<nat>) | UnlockEnqueue(t: nat)

  predicate Holds(pc: PC) {
    !pc.Idle? && !pc.Asleep? && !pc.Woken?
  }

  function Sleepers(pcs: map<nat, PC>): set<nat> {
    set t | t in pcs && pcs[t].Asleep?
  }

  /** A consumer that still has to look at the queue or take from it. */
  predicate IsUnderway(pc: PC) {
    pc.Testing? || pc.Woken? || pc.Taking? || pc.Popping?
  }

  function Underway(pcs: map<nat, PC>): set<nat> {
    set t | t in pcs && IsUnderway(pcs[t])
  }

  function Notifiers(pcs: map<nat, PC>): set<nat> {
    set t | t in pcs && pcs[t].Notifying?
  }

  predicate Enabled(s: State, a: Action) {
    && a.t in s.pcs
    && var pc := s.pcs[a.t];
       match a
       case LockDequeue(_) => pc.Idle? && s.owner == Free
       case LockEnqueue(_, _) => pc.Idle? && s.owner == Free
       case Test(_) => pc.Testing?
       case Front(_) => pc.Taking?
       case Pop(_) => pc.Popping?
       case UnlockDequeue(_) => pc.Returning?
       case Spurious(_) => pc.Asleep?
       case Relock(_) => pc.Woken? && s.owner == Free
       case Push(_) => pc.Pushing?
       // pthread_cond_signal wakes at least one of the sleepers
       case Notify(_, woken) =>
         pc.Notifying? && woken <= Sleepers(s.pcs) && (Sleepers(s.pcs) != {} ==> woken != {})
       case UnlockEnqueue(_) => pc.Leaving?
  }

  function Wake(pcs: map<nat, PC>, woken: set<nat>): map<nat, PC> {
    map t | t in pcs :: if t in woken then Woken else pcs[t]
  }

  /** front and pop_front need a non-empty queue. */
  predicate Defined(s: State, a: Action) {
    a.Front? || a.Pop? ==> s.queue != []
  }

  function Step(s: State, a: Action): State
    requires Enabled(s, a) && Defined(s, a)
  {
    match a
    case LockDequeue(t) => s.(owner := Held(t), pcs := s.pcs[t := Testing])
    case LockEnqueue(t, x) => s.(owner := Held(t), pcs := s.pcs[t := Pushing(x)])
    case Test(t) =>
      if s.queue == [] then s.(owner := Free, pcs := s.pcs[t := Asleep])
      else s.(pcs := s.pcs[t := Taking])
    case Front(t) => s.(pcs := s.pcs[t := Popping(s.queue[0])])
    case Pop(t) =>
      var top := s.pcs[t].top;
      s.(queue := s.queue[1..], dequeued := s.dequeued + [top], pcs := s.pcs[t := Returning(top)])
    case UnlockDequeue(t) => s.(owner := Free, pcs := s.pcs[t := Idle])
    case Spurious(t) => s.(pcs := s.pcs[t := Woken])
    case Relock(t) => s.(owner := Held(t), pcs := s.pcs[t := Testing])
    case Push(t) =>
      var x := s.pcs[t].x;
      s.(queue := s.queue + [x], enqueued := s.enqueued + [x], pcs := s.pcs[t := Notifying])
    case Notify(t, woken) => s.(pcs := Wake(s.pcs, woken)[t := Leaving])
    case UnlockEnqueue(t) => s.(owner := Free, pcs := s.pcs[t := Idle])
  }

  // ----- the invariant

  /** The mutex is held by exactly the thread that is between lock and unlock. */
  ghost predicate MutexInv(s: State) {
    && (forall t | t in s.pcs :: Holds(s.pcs[t]) <==> s.owner == Held(t))
    && (s.owner.Held? ==> s.owner.tid in s.pcs)
  }

  /** Nothing is lost, doubled or reordered, and front and pop_front see a non-empty queue. */
  ghost predicate QueueInv(s: State) {
    && s.enqueued == s.dequeued + s.queue
    && forall t | t in s.pcs ::
         && (s.pcs[t].Taking? || s.pcs[t].Popping? ==> s.queue != [])
         && (s.pcs[t].Popping? ==> s.queue[0] == s.pcs[t].top)
  }

  /** While anyone sleeps, every queued item has a consumer under way or a notification coming. */
  ghost predicate WakeupInv(s: State) {
    Sleepers(s.pcs) != {} ==> |s.queue| <= |Underway(s.pcs)| + |Notifiers(s.pcs)|
  }

  ghost predicate Inv(s: State) {
    MutexInv(s) && QueueInv(s) && WakeupInv(s)
  }

  lemma InvDefined(s: State, a: Action)
    requires Inv(s) && Enabled(s, a)
    ensures Defined(s, a)
  {
  }

  lemma MutexStep(s: State, a: Action)
    requires Inv(s) && Enabled(s, a)
    ensures Defined(s, a) && MutexInv(Step(s, a))
  {
    InvDefined(s, a);
  }

  lemma QueueStep(s: State, a: Action)
    requires Inv(s) && Enabled(s, a)
    ensures Defined(s, a) && QueueInv(Step(s, a))
  {
    InvDefined(s, a);
  }

  lemma Replaced(before: set<nat>, after: set<nat>, t: nat)
    requires before - {t} == after - {t}
    ensures |after| == |before| - (if t in before then 1 else 0) + (if t in after then 1 else 0)
  {
    assert before == before - {t} + if t in before then {t} else {};
    assert after == after - {t} + if t in after then {t} else {};
  }

  /** How one thread's move changes the three groups. */
  lemma MoveCounts(pcs: map<nat, PC>, t: nat, pc: PC)
    requires t in pcs
    ensures Sleepers(pcs[t := pc]) == Sleepers(pcs) - {t} + if pc.Asleep? then {t} else {}
    ensures |Underway(pcs[t := pc])| ==
            |Underway(pcs)| - (if IsUnderway(pcs[t]) then 1 else 0) + (if IsUnderway(pc) then 1 else 0)
    ensures |Notifiers(pcs[t := pc])| ==
            |Notifiers(pcs)| - (if pcs[t].Notifying? then 1 else 0) + (if pc.Notifying? then 1 else 0)
  {
    Replaced(Underway(pcs), Underway(pcs[t := pc]), t);
    Replaced(Notifiers(pcs), Notifiers(pcs[t := pc]), t);
  }

  lemma NotifyCounts(pcs: map<nat, PC>, woken: set<nat>)
    requires woken <= Sleepers(pcs)
    ensures Sleepers(Wake(pcs, woken)) == Sleepers(pcs) - woken
    ensures |Underway(Wake(pcs, woken))| == |Underway(pcs)| + |woken|
    ensures Notifiers(Wake(pcs, woken)) == Notifiers(pcs)
  {
    assert Underway(Wake(pcs, woken)) == Underway(pcs) + woken;
    assert Underway(pcs) !! woken;
  }

  /** A notification that wakes someone replaces the notifier by a consumer under way. */
  lemma NotifyStep(s: State, a: Action)
    requires Inv(s) && Enabled(s, a) && a.Notify?
    ensures WakeupInv(Step(s, a))
  {
    NotifyCounts(s.pcs, a.woken);
    MoveCounts(Wake(s.pcs, a.woken), a.t, Leaving);
    if a.woken != {} {
      var w :| w in a.woken;
      assert |a.woken| == |a.woken - {w}| + 1;
    }
  }

  lemma WakeupStep(s: State, a: Action)
    requires Inv(s) && Enabled(s, a)
    ensures Defined(s, a) && WakeupInv(Step(s, a))
  {
    InvDefined(s, a);
    if a.Notify? {
      NotifyStep(s, a);
    } else {
      var t, s' := a.t, Step(s, a);
      MoveCounts(s.pcs, t, s'.pcs[t]);
      assert s'.pcs == s.pcs[t := s'.pcs[t]];
    }
  }

  lemma InvStep(s: State, a: Action)
    requires Inv(s) && Enabled(s, a)
    ensures Defined(s, a) && Inv(Step(s, a))
  {
    MutexStep(s, a);
    QueueStep(s, a);
    WakeupStep(s, a);
  }

  /** A step moves only the thread that takes it, except that a notification wakes sleepers. */
  lemma StepMoves(s: State, a: Action, u: nat)
    requires Enabled(s, a) && Defined(s, a) && u in s.pcs && u != a.t
    ensures u in Step(s, a).pcs
    ensures Step(s, a).pcs[u] == if a.Notify? && u in a.woken then Woken else s.pcs[u]
    ensures a.Notify? && u in a.woken ==> s.pcs[u].Asleep?
  {
  }

  // ----- runs

  ghost predicate Init(s: State) {
    && s.owner == Free && s.queue == s.enqueued == s.dequeued == []
    && forall t | t in s.pcs :: s.pcs[t] == Idle
  }

  /** states is a run: each state follows from the one before by an enabled action. */
  ghost predicate IsRun(states: seq<State>, actions: seq<Action>) {
    && |states| == |actions| + 1 && Init(states[0])
    && forall i | 0 <= i < |actions| ::
         && Enabled(states[i], actions[i])
         && (Defined(states[i], actions[i]) ==> states[i + 1] == Step(states[i], actions[i]))
  }

  lemma {:induction false} RunInv(states: seq<State>, actions: seq<Action>, i: nat)
    requires IsRun(states, actions) && i < |states|
    ensures Inv(states[i])
  {
    if i > 0 {
      RunInv(states, actions, i - 1);
      InvStep(states[i - 1], actions[i - 1]);
    }
  }

  /** In every run front and pop_front only ever see a non-empty queue, what was pushed is
      what was popped followed by what is queued, and at most one thread is inside. */
  lemma RunSafety(states: seq<State>, actions: seq<Action>, i: nat)
    requires IsRun(states, actions) && i < |states|
    ensures i < |actions| ==> Defined(states[i], actions[i])
    ensures states[i].enqueued == states[i].dequeued + states[i].queue
    ensures forall t, u | t in states[i].pcs && u in states[i].pcs && Holds(states[i].pcs[t]) && Holds(states[i].pcs[u]) ::
              t == u
  {
    RunInv(states, actions, i);
    if i < |actions| { InvDefined(states[i], actions[i]); }
  }

  /** Nobody is inside an operation except sleepers. */
  ghost predicate Quiet(s: State) {
    forall t | t in s.pcs :: s.pcs[t].Idle? || s.pcs[t].Asleep?
  }

  /** No wakeup is lost: a sleeper beside a queued item means that some thread is about to
      take an item or to notify. */
  lemma NoLostWakeup(states: seq<State>, actions: seq<Action>, i: nat)
    requires IsRun(states, actions) && i < |states|
    requires Sleepers(states[i].pcs) != {} && states[i].queue != []
    ensures exists t :: t in states[i].pcs && (IsUnderway(states[i].pcs[t]) || states[i].pcs[t].Notifying?)
  {
    RunInv(states, actions, i);
    var pcs := states[i].pcs;
    if Underway(pcs) != {} {
      var t :| t in Underway(pcs);
    } else {
      assert Notifiers(pcs) != {};
      var t :| t in Notifiers(pcs);
    }
  }

  // ----- what producers give and consumers get

  /** The arguments of the calls of enqueue among the first n actions, in the order in which they
      got the mutex. */
  function Given(actions: seq<Action>, n: nat): seq<int>
    requires n <= |actions|
  {
    if n == 0 then [] else Given(actions, n - 1) + GivenBy(actions[n - 1])
  }

  function GivenBy(a: Action): seq<int> {
    if a.LockEnqueue? then [a.x] else []
  }

  /** The results of the calls of dequeue that ended among the first n actions, in that order. */
  function Got(states: seq<State>, actions: seq<Action>, n: nat): seq<int>
    requires n <= |actions| && n <= |states|
  {
    if n == 0 then [] else Got(states, actions, n - 1) + GotBy(states[n - 1], actions[n - 1])
  }

  function GotBy(s: State, a: Action): seq<int> {
    if a.UnlockDequeue? && a.t in s.pcs && s.pcs[a.t].Returning? then [s.pcs[a.t].top] else []
  }

  /** What a call of enqueue that holds the mutex has yet to push. */
  function BeingGiven(s: State): seq<int> {
    if s.owner.Held? && s.owner.tid in s.pcs && s.pcs[s.owner.tid].Pushing? then [s.pcs[s.owner.tid].x] else []
  }

  /** What a call of dequeue that holds the mutex has popped and has yet to return. */
  function BeingReturned(s: State): seq<int> {
    if s.owner.Held? && s.owner.tid in s.pcs && s.pcs[s.owner.tid].Returning? then [s.pcs[s.owner.tid].top] else []
  }

  lemma HistoryStep(s: State, a: Action, given: seq<int>, got: seq<int>)
    requires Inv(s) && Enabled(s, a)
    requires given == s.enqueued + BeingGiven(s) && s.dequeued == got + BeingReturned(s)
    ensures Defined(s, a)
    ensures given + GivenBy(a) == Step(s, a).enqueued + BeingGiven(Step(s, a))
    ensures Step(s, a).dequeued == got + GotBy(s, a) + BeingReturned(Step(s, a))
  {
    InvDefined(s, a);
  }

  /** The histories are those of the calls: in every run all that was given was pushed, in order,
      except by a call that is just about to; all that was popped was returned, in order, likewise. */
  lemma {:induction false} RunHistories(states: seq<State>, actions: seq<Action>, i: nat)
    requires IsRun(states, actions) && i < |states|
    ensures Given(actions, i) == states[i].enqueued + BeingGiven(states[i])
    ensures states[i].dequeued == Got(states, actions, i) + BeingReturned(states[i])
  {
    if i > 0 {
      RunHistories(states, actions, i - 1);
      RunInv(states, actions, i - 1);
      HistoryStep(states[i - 1], actions[i - 1], Given(actions, i - 1), Got(states, actions, i - 1));
    }
  }

  /** So consumers get what producers gave, in order, from the first on, and once nobody is inside
      what they have not got is what is queued. */
  lemma FirstInFirstOut(states: seq<State>, actions: seq<Action>, i: nat)
    requires IsRun(states, actions) && i < |states|
    ensures Got(states, actions, i) <= Given(actions, i)
    ensures states[i].owner == Free ==> Given(actions, i) == Got(states, actions, i) + states[i].queue
  {
    RunHistories(states, actions, i);
    RunInv(states, actions, i);
    var s := states[i];
    Regroup(Got(states, actions, i), BeingReturned(s), s.queue, BeingGiven(s));
  }

  lemma Regroup(got: seq<int>, returned: seq<int>, queue: seq<int>, given: seq<int>)
    ensures got <= got + returned + queue + given
    ensures returned == given == [] ==> got + returned + queue + given == got + queue
  {
    assert got + returned + queue + given == got + (returned + queue + given);
  }

  // ----- every call in progress ends

  /** A step of a call in progress, other than a spurious wakeup. */
  predicate Continues(a: Action) {
    !a.LockDequeue? && !a.LockEnqueue? && !a.Spurious?
  }

  /** Unless all is quiet some call can go on: there is no deadlock. */
  lemma Progress(s: State) returns (a: Action)
    requires Inv(s) && !Quiet(s)
    ensures Enabled(s, a) && Continues(a)
  {
    var t: nat :| t in s.pcs && !s.pcs[t].Idle? && !s.pcs[t].Asleep?;
    var u := if s.owner.Held? then s.owner.tid else t;
    match s.pcs[u] {
      case Testing => a := Test(u);
      case Woken => a := Relock(u);
      case Taking => a := Front(u);
      case Popping(_) => a := Pop(u);
      case Returning(_) => a := UnlockDequeue(u);
      case Pushing(_) => a := Push(u);
      case Notifying => a := Notify(u, Sleepers(s.pcs));
      case Leaving => a := UnlockEnqueue(u);
    }
  }

  /** How many steps a thread's call has before it, counting up to its sleep. */
  function Rank(pc: PC): nat {
    match pc
    case Idle => 0
    case Asleep => 0
    case Leaving => 1
    case Returning(_) => 1
    case Popping(_) => 2
    case Taking => 3
    case Testing => 4
    case Woken => 5
    case Notifying => 2
    case Pushing(_) => 3
  }

  function Ranks(pcs: map<nat, PC>): map<nat, nat> {
    map t | t in pcs :: Rank(pcs[t])
  }

  lemma RankMove(pcs: map<nat, PC>, t: nat, pc: PC)
    requires t in pcs
    ensures Total(Ranks(pcs[t := pc])) == Total(Ranks(pcs)) - Rank(pcs[t]) + Rank(pc)
  {
    assert Ranks(pcs[t := pc]) == Ranks(pcs)[t := Rank(pc)];
    TotalMove(Ranks(pcs), t, Rank(pc));
  }

  /** Producers that have yet to notify. */
  function Unnotified(pcs: map<nat, PC>): set<nat> {
    set t | t in pcs && (pcs[t].Pushing? || pcs[t].Notifying?)
  }

  /** Who has yet to notify only changes when someone notifies. */
  lemma UnnotifiedStep(s: State, a: Action)
    requires Inv(s) && Enabled(s, a) && Continues(a) && Defined(s, a)
    ensures var t := if a.Notify? then {a.t} else {};
            Unnotified(Step(s, a).pcs) == Unnotified(s.pcs) - t && t <= Unnotified(s.pcs)
  {
  }

  /** Every continuing step lowers (|Unnotified|, Total), so calls cannot go on for ever
      without new calls or spurious wakeups. */
  lemma StepsDecrease(s: State, a: Action)
    requires Inv(s) && Enabled(s, a) && Continues(a)
    ensures Defined(s, a)
    ensures var s' := Step(s, a);
            |Unnotified(s'.pcs)| < |Unnotified(s.pcs)| ||
            (|Unnotified(s'.pcs)| == |Unnotified(s.pcs)| && Total(Ranks(s'.pcs)) < Total(Ranks(s.pcs)))
  {
    InvDefined(s, a);
    UnnotifiedStep(s, a);
    if !a.Notify? {
      RankDrops(s, a);
      RankMove(s.pcs, a.t, Step(s, a).pcs[a.t]);
    }
  }

  lemma RankDrops(s: State, a: Action)
    requires Enabled(s, a) && Defined(s, a) && Continues(a) && !a.Notify?
    ensures var t, s' := a.t, Step(s, a);
            t in s'.pcs && s'.pcs == s.pcs[t := s'.pcs[t]] && Rank(s'.pcs[t]) < Rank(s.pcs[t])
  {
  }

  /** actions lead from s to r and are all steps of calls in progress. */
  ghost predicate Leads(s: State, actions: seq<Action>, r: State)
    decreases |actions|
  {
    if actions == [] then r == s
    else
      && Enabled(s, actions[0]) && Continues(actions[0]) && Defined(s, actions[0])
      && Leads(Step(s, actions[0]), actions[1..], r)
  }

  /** When all is quiet nobody sleeps beside a queued item. */
  lemma QuietIsFair(s: State)
    requires Inv(s) && Quiet(s)
    ensures Sleepers(s.pcs) == {} || s.queue == []
    ensures s.owner == Free
  {
    assert Underway(s.pcs) == {} && Notifiers(s.pcs) == {};
  }

  /** From any state the calls in progress can all go on until all is quiet and fair. */
  lemma {:induction false} Settle(s: State) returns (actions: seq<Action>, r: State)
    requires Inv(s)
    ensures Leads(s, actions, r) && Inv(r) && Quiet(r)
    ensures Sleepers(r.pcs) == {} || r.queue == []
    decreases |Unnotified(s.pcs)|, Total(Ranks(s.pcs))
  {
    if Quiet(s) {
      QuietIsFair(s);
      actions, r := [], s;
    } else {
      var a := Progress(s);
      InvStep(s, a);
      StepsDecrease(s, a);
      var rest;
      rest, r := Settle(Step(s, a));
      actions := [a] + rest;
    }
  }
}
