/** The deferred-signal queue: signals that arrive inside a blocked section wait in a bounded
    queue and are handled, in order, when the outermost section ends. */
module SignalSpec {

  datatype Signal = Signal(signo: int, siginfo: int, context: int)

  /** What the globals mean; delivered is the sequence of handler calls so far. */
  datatype State = State(depth: nat, blocked: bool, active: bool, pending: seq<Signal>, delivered: seq<Signal>)

  /** What happens; `during` are the signals that arrive while the operation runs handlers. */
  datatype Op = Block | Unblock(during: seq<Signal>) | Arrive(signal: Signal, during: seq<Signal>)

  /** zend_signal_handler_defer, when no handler is running.  A signal that arrives at depth 0
      while one is running is forgotten. */
  function Defer(s: State, signal: Signal, during: seq<Signal>, capacity: nat): State {
    if !s.active then s.(delivered := s.delivered + [signal] + during)
    else if s.depth == 0 then
      s.(blocked := false, pending := [], delivered := s.delivered + [signal] + s.pending)
    else
      s.(blocked := true, pending := if |s.pending| < capacity then s.pending + [signal] else s.pending)
  }

  /** The test of ZEND_SIGNAL_UNBLOCK_INTERRUPTIONS. */
  predicate Fires(s: State) {
    s.depth == if s.blocked then 1 else 0
  }

  /** Whether the operation runs a handler at all. */
  predicate Handles(s: State, op: Op) {
    match op
    case Block => false
    case Unblock(_) => Fires(s)
    case Arrive(_, _) => !s.active || s.depth == 0
  }

  predicate Enabled(s: State, op: Op) {
    && (op.Unblock? ==> s.depth > 0 && (Fires(s) ==> s.pending != []))
    && (!op.Block? && op.during != [] ==> Handles(s, op))
  }

  function Step(s: State, op: Op, capacity: nat): State
    requires Enabled(s, op)
  {
    match op
    case Block => s.(depth := s.depth + 1)
    case Unblock(during) =>
      if Fires(s) then Defer(s.(depth := s.depth - 1, pending := s.pending[1..]), s.pending[0], during, capacity)
      else s.(depth := s.depth - 1)
    case Arrive(signal, during) => Defer(s, signal, during, capacity)
  }

  /** What every operation keeps. */
  predicate Inv(s: State, capacity: nat) {
    && |s.pending| <= capacity
    && (s.blocked <==> s.pending != [])
    && (s.depth == 0 || !s.active ==> s.pending == [])
  }

  lemma StepKeepsInv(s: State, op: Op, capacity: nat)
    requires capacity > 0 && Inv(s, capacity) && Enabled(s, op)
    ensures Inv(Step(s, op, capacity), capacity)
    ensures Step(s, op, capacity).active == s.active
  {
  }

  /** The test fires exactly at the outermost unblock with something pending. */
  lemma UnblockTest(s: State, capacity: nat)
    requires Inv(s, capacity) && s.depth > 0
    ensures Fires(s) <==> s.depth == 1 && s.pending != []
    ensures Enabled(s, Unblock([]))
  {
  }

  // ----- runs

  /** Each operation can happen where it does. */
  predicate Legal(s: State, ops: seq<Op>, capacity: nat)
    decreases |ops|
  {
    ops == [] || (Enabled(s, ops[0]) && Legal(Step(s, ops[0], capacity), ops[1..], capacity))
  }

  /** No Unblock without a Block before it. */
  predicate Balanced(depth: nat, ops: seq<Op>)
    decreases |ops|
  {
    ops == [] ||
    match ops[0]
    case Block => Balanced(depth + 1, ops[1..])
    case Unblock(_) => depth > 0 && Balanced(depth - 1, ops[1..])
    case Arrive(_, _) => Balanced(depth, ops[1..])
  }

  /** No signal arrives while a handler is running. */
  predicate Undisturbed(ops: seq<Op>)
    decreases |ops|
  {
    ops == [] || ((ops[0].Block? || ops[0].during == []) && Undisturbed(ops[1..]))
  }

  /** Such a run only has to be balanced. */
  lemma {:induction false} BalancedIsLegal(s: State, ops: seq<Op>, capacity: nat)
    requires capacity > 0 && Inv(s, capacity) && Undisturbed(ops)
    ensures Balanced(s.depth, ops) <==> Legal(s, ops, capacity)
    decreases |ops|
  {
    if ops != [] && Enabled(s, ops[0]) {
      StepKeepsInv(s, ops[0], capacity);
      BalancedIsLegal(Step(s, ops[0], capacity), ops[1..], capacity);
    }
  }

  ghost function Run(s: State, ops: seq<Op>, capacity: nat): (r: State)
    requires capacity > 0 && Inv(s, capacity) && Legal(s, ops, capacity)
    ensures Inv(r, capacity) && r.active == s.active
    decreases |ops|
  {
    if ops == [] then s
    else
      StepKeepsInv(s, ops[0], capacity);
      Run(Step(s, ops[0], capacity), ops[1..], capacity)
  }

  function ArrivalsOf(op: Op): seq<Signal> {
    match op
    case Block => []
    case Unblock(during) => during
    case Arrive(signal, during) => [signal] + during
  }

  function Arrivals(ops: seq<Op>): seq<Signal> {
    if ops == [] then [] else ArrivalsOf(ops[0]) + Arrivals(ops[1..])
  }

  /** The arrivals that are handled at once or wait.  One is lost when it has to wait and the
      pool is exhausted, or when it comes while a handler is running. */
  function AcceptedOf(s: State, op: Op, capacity: nat): (a: seq<Signal>)
    ensures |a| <= |ArrivalsOf(op)|
  {
    match op
    case Block => []
    case Unblock(_) => []
    case Arrive(signal, during) =>
      if !s.active then [signal] + during
      else if s.depth == 0 || |s.pending| < capacity then [signal]
      else []
  }

  ghost function Accepted(s: State, ops: seq<Op>, capacity: nat): (r: seq<Signal>)
    requires capacity > 0 && Inv(s, capacity) && Legal(s, ops, capacity)
    ensures |r| <= |Arrivals(ops)|
    decreases |ops|
  {
    if ops == [] then []
    else
      StepKeepsInv(s, ops[0], capacity);
      AcceptedOf(s, ops[0], capacity) + Accepted(Step(s, ops[0], capacity), ops[1..], capacity)
  }

  lemma StepInOrder(s: State, op: Op, capacity: nat)
    requires Inv(s, capacity) && Enabled(s, op)
    ensures var t := Step(s, op, capacity);
            t.delivered + t.pending == s.delivered + s.pending + AcceptedOf(s, op, capacity)
  {
    if op.Unblock? && Fires(s) { assert s.pending == [s.pending[0]] + s.pending[1..]; }
  }

  /** Handled and waiting signals together are the accepted arrivals, in arrival order. */
  lemma {:induction false} InOrder(s: State, ops: seq<Op>, capacity: nat)
    requires capacity > 0 && Inv(s, capacity) && Legal(s, ops, capacity)
    ensures var r := Run(s, ops, capacity);
            r.delivered + r.pending == s.delivered + s.pending + Accepted(s, ops, capacity)
    decreases |ops|
  {
    if ops != [] {
      StepKeepsInv(s, ops[0], capacity);
      StepInOrder(s, ops[0], capacity);
      InOrder(Step(s, ops[0], capacity), ops[1..], capacity);
    }
  }

  /** Once every section is closed nothing is left waiting. */
  lemma AllDelivered(s: State, ops: seq<Op>, capacity: nat)
    requires capacity > 0 && Inv(s, capacity) && s.pending == [] && Legal(s, ops, capacity)
    requires Run(s, ops, capacity).depth == 0
    ensures Run(s, ops, capacity).delivered == s.delivered + Accepted(s, ops, capacity)
  {
    InOrder(s, ops, capacity);
    var r := Run(s, ops, capacity);
    assert r.pending == [];
    assert r.delivered + r.pending == r.delivered;
    assert s.delivered + s.pending == s.delivered;
  }

  /** The depth never returns to 0 during ops. */
  predicate StaysBlocked(depth: nat, ops: seq<Op>)
    decreases |ops|
  {
    depth > 0 &&
    (ops == [] ||
     match ops[0]
     case Block => StaysBlocked(depth + 1, ops[1..])
     case Unblock(_) => StaysBlocked(depth - 1, ops[1..])
     case Arrive(_, _) => StaysBlocked(depth, ops[1..]))
  }

  /** No handler runs inside a blocked section. */
  lemma {:induction false} NoHandlerWhileBlocked(s: State, ops: seq<Op>, capacity: nat)
    requires capacity > 0 && Inv(s, capacity) && s.active && StaysBlocked(s.depth, ops) && Legal(s, ops, capacity)
    ensures Run(s, ops, capacity).delivered == s.delivered
    decreases |ops|
  {
    if ops != [] {
      StepKeepsInv(s, ops[0], capacity);
      NoHandlerWhileBlocked(Step(s, ops[0], capacity), ops[1..], capacity);
    }
  }

  /** At most `capacity` signals arrive between the start and the end of each blocked section. */
  predicate FitsPool(depth: nat, waiting: nat, capacity: nat, ops: seq<Op>)
    decreases |ops|
  {
    ops == [] ||
    match ops[0]
    case Block => FitsPool(depth + 1, waiting, capacity, ops[1..])
    case Unblock(_) =>
      depth > 0 && FitsPool(depth - 1, if depth == 1 then 0 else waiting, capacity, ops[1..])
    case Arrive(_, _) =>
      if depth == 0 then FitsPool(depth, waiting, capacity, ops[1..])
      else waiting < capacity && FitsPool(depth, waiting + 1, capacity, ops[1..])
  }

  lemma SameParts<T>(a: seq<T>, b: seq<T>, c: seq<T>, d: seq<T>)
    requires |a| <= |c| && |b| <= |d|
    ensures a + b == c + d <==> a == c && b == d
  {
    if a + b == c + d {
      assert |a| == |c|;
      assert a == (a + b)[..|a|] == (c + d)[..|a|] == c;
      assert b == (a + b)[|a|..] == (c + d)[|a|..] == d;
    }
  }

  /** No signal is lost exactly when every blocked section fits the pool and no signal arrives
      while a handler is running. */
  lemma {:induction false} LosslessIff(s: State, ops: seq<Op>, capacity: nat)
    requires capacity > 0 && Inv(s, capacity) && s.active && Legal(s, ops, capacity)
    ensures Accepted(s, ops, capacity) == Arrivals(ops) <==>
            FitsPool(s.depth, |s.pending|, capacity, ops) && Undisturbed(ops)
    decreases |ops|
  {
    if ops != [] {
      StepKeepsInv(s, ops[0], capacity);
      var t := Step(s, ops[0], capacity);
      LosslessIff(t, ops[1..], capacity);
      SameParts(AcceptedOf(s, ops[0], capacity), Accepted(t, ops[1..], capacity), ArrivalsOf(ops[0]), Arrivals(ops[1..]));
    }
  }

  /** Before activation nothing waits: every signal is handled at once, in order, however deep the
      sections are nested. */
  lemma {:induction false} InactiveHandlesAll(s: State, ops: seq<Op>, capacity: nat)
    requires capacity > 0 && Inv(s, capacity) && !s.active && Legal(s, ops, capacity)
    ensures Run(s, ops, capacity).delivered == s.delivered + Arrivals(ops) && Run(s, ops, capacity).pending == []
    decreases |ops|
  {
    if ops != [] {
      StepKeepsInv(s, ops[0], capacity);
      var t := Step(s, ops[0], capacity);
      InactiveHandlesAll(t, ops[1..], capacity);
      assert t.delivered == s.delivered + ArrivalsOf(ops[0]);
    }
  }

  // ----- zend_signal_activate

  /** Activation resets the depth, whatever is pending. */
  function Activated(s: State): State {
    s.(active := true, depth := 0)
  }

  /** From every state with nothing pending, active or not: after activation a signal is handled at
      once; inside a section it waits, and is handled at the section's end. */
  lemma ActivateWorks(s: State, x: Signal, capacity: nat)
    requires capacity > 0 && s.pending == [] && !s.blocked
    ensures var on := Activated(s);
            && on.active && Inv(on, capacity) && Legal(on, [Arrive(x, [])], capacity)
            && Run(on, [Arrive(x, [])], capacity).delivered == s.delivered + [x]
    ensures var on, section := Activated(s), [Block, Arrive(x, [])];
            && Legal(on, section, capacity) && Legal(on, section + [Unblock([])], capacity)
            && Run(on, section, capacity).delivered == s.delivered
            && Run(on, section, capacity).pending == [x]
            && Run(on, section + [Unblock([])], capacity).delivered == s.delivered + [x]
  {
    var on := Activated(s);
    var section, all := [Block, Arrive(x, [])], [Block, Arrive(x, []), Unblock([])];
    assert section + [Unblock([])] == all;
    var one := Step(on, Block, capacity);
    var two := Step(one, Arrive(x, []), capacity);
    var three := Step(two, Unblock([]), capacity);
    assert section[1..] == [Arrive(x, [])] && section[1..][1..] == [];
    assert all[1..] == [Arrive(x, []), Unblock([])] && all[1..][1..] == [Unblock([])];
    assert Legal(three, [], capacity) && Legal(two, [Unblock([])], capacity) && Legal(two, [], capacity);
    assert Legal(one, all[1..], capacity) && Legal(one, section[1..], capacity);
    assert Run(one, section[1..], capacity) == two;
    assert Run(two, [Unblock([])], capacity) == three && Run(one, all[1..], capacity) == three;
  }

  /** So it keeps the invariant exactly when nothing is pending. */
  lemma ActivateKeepsInvIff(s: State, capacity: nat)
    requires Inv(s, capacity)
    ensures Inv(Activated(s), capacity) <==> s.pending == []
  {
  }

  /** Otherwise the next arrival overtakes everything that was waiting. */
  lemma ActivateReorders(s: State, signal: Signal, capacity: nat)
    requires Inv(s, capacity) && s.pending != [] && signal !in s.pending
    ensures var r := Defer(Activated(s), signal, [], capacity);
            && r.delivered == s.delivered + [signal] + s.pending
            && r.delivered != s.delivered + s.pending + [signal]
  {
    var r := Defer(Activated(s), signal, [], capacity);
    assert r.delivered[|s.delivered|] == signal;
    assert (s.delivered + s.pending + [signal])[|s.delivered|] == s.pending[0];
  }
}

/** The globals themselves: a pool of queue nodes, split between a pending and a free list. */
module SignalQueue {
  import opened Sequences
  import opened SignalSpec

  class Node {
    var signal: Signal
    var next: Node?

    constructor (next: Node?)
      ensures this.next == next
    {
      signal := Signal(0, 0, 0);
      this.next := next;
    }
  }

  /** nodes is the list that starts at head and ends with null. */
  ghost predicate IsChain(head: Node?, nodes: seq<Node>)
    reads nodes
  {
    && head == (if nodes == [] then null else nodes[0])
    && forall i {:trigger nodes[i].next} | 0 <= i < |nodes| ::
         nodes[i].next == if i + 1 < |nodes| then nodes[i + 1] else null
  }

  ghost function SignalsOf(nodes: seq<Node>): seq<Signal>
    reads nodes
  {
    seq(|nodes|, i requires 0 <= i < |nodes| reads nodes => nodes[i].signal)
  }

  lemma OneHandled(before: seq<Signal>, handled: seq<Signal>, rest: seq<Signal>)
    requires rest != []
    ensures (handled + [rest[0]]) + rest[1..] == handled + rest
    ensures before + handled + [rest[0]] == before + (handled + [rest[0]])
  {
  }

  class Globals {
    var depth: nat
    var blocked: int
    var running: int
    var active: bool
    var phead: Node?
    var ptail: Node?
    var pavail: Node?
    var delivered: seq<Signal>   // the calls of zend_signal_handler
    var incoming: seq<Signal>    // what will arrive while handlers run
    ghost var pending: seq<Node>
    ghost var avail: seq<Node>
    ghost var pool: set<Node>
    ghost const capacity: nat

    /** The list from head and the free list share no node and together hold the whole pool. */
    ghost predicate Lists(head: Node?)
      reads this`pool, this`pending, this`avail, this`pavail, pending, avail
    {
      && (forall n | n in pool :: n in pending || n in avail)
      && (forall n | n in pending + avail :: n in pool)
      && Distinct(pending) && Distinct(avail) && (forall n | n in pending :: n !in avail)
      && |pending| + |avail| == capacity
      && IsChain(head, pending) && IsChain(pavail, avail)
    }

    /** ptail matters only while something is pending. */
    ghost predicate Consistent()
      reads this, pending, avail
    {
      && (blocked == 0 || blocked == 1) && Lists(phead)
      && (pending != [] ==> ptail == pending[|pending| - 1])
    }

    /** A handler is running, and nothing is blocked. */
    predicate Busy()
      reads this
    {
      active && depth == 0 && running != 0
    }

    /** Neither list has changed, nor the state that decides what is done with a signal. */
    twostate predicate Undrained()
      reads this, pool
    {
      && unchanged(this`depth, this`running, this`active, this`phead, this`ptail, this`pavail)
      && unchanged(this`pending, this`avail, this`pool) && unchanged(pool)
      && (blocked == old(blocked) || (active && blocked == 0))
    }

    /** Between operations no handler is running. */
    ghost predicate Valid()
      reads this, pending, avail
    {
      Consistent() && running == 0
    }

    ghost function View(): State
      reads this, pending
    {
      State(depth, blocked == 1, active, SignalsOf(pending), delivered)
    }

    /** zend_signal_globals_ctor: every node of the pool is free. */
    constructor (capacity: nat, incoming: seq<Signal>)
      ensures Valid() && fresh(pool) && this.capacity == capacity && this.incoming == incoming
      ensures View() == State(0, false, false, [], [])
    {
      depth, blocked, running, active := 0, 0, 0, false;
      phead, ptail, pavail := null, null, null;
      delivered := [];
      this.incoming := incoming;
      pending, avail := [], [];
      pool := {};
      this.capacity := capacity;
      new;
      for x := 0 to capacity
        invariant fresh(avail) && fresh(pool) && pool == (set n | n in avail) && Distinct(avail) && |avail| == x && IsChain(pavail, avail)
        invariant depth == 0 && blocked == 0 && running == 0 && !active && phead == null
        invariant delivered == [] && pending == [] && this.incoming == incoming
      {
        var queue := new Node(pavail);
        pavail := queue;
        avail := [queue] + avail;
        pool := pool + {queue};
      }
    }

    /** zend_signal_activate, as far as these fields go. */
    method Activate()
      requires Valid()
      modifies this`active, this`depth
      ensures Valid() && View() == Activated(old(View()))
      ensures active && depth == 0 && SignalsOf(pending) == old(SignalsOf(pending))
    {
      active := true;
      depth := 0;
    }

    /** ZEND_SIGNAL_BLOCK_INTERRUPTIONS */
    method BlockInterruptions()
      requires Valid()
      modifies this`depth
      ensures Valid() && View() == Step(old(View()), Block, capacity)
    {
      depth := depth + 1;
    }

    /** Puts a node at the end of the pending list. */
    method Append(queue: Node)
      requires queue !in pending && Distinct(pending) && IsChain(phead, pending)
      requires pending != [] ==> ptail == pending[|pending| - 1]
      modifies this`phead, this`ptail, this`pending, pending`next, queue`next
      ensures pending == old(pending) + [queue] && IsChain(phead, pending) && ptail == queue
    {
      queue.next := null;
      if phead != null && ptail != null {
        ptail.next := queue;
      } else {
        phead := queue;
      }
      ptail := queue;
      pending := pending + [queue];
    }

    /** Fills the first free node with a signal. */
    method TakeNode(signal: Signal) returns (queue: Node)
      requires Lists(phead) && pavail != null
      modifies this`pavail, this`avail, pool`signal
      ensures queue == old(avail)[0] && avail == old(avail)[1..] && IsChain(pavail, avail)
      ensures queue !in avail && queue !in pending && queue.signal == signal
      ensures forall n | n in avail :: n !in pending
      ensures SignalsOf(pending) == old(SignalsOf(pending))
    {
      queue := pavail;
      pavail := queue.next;
      avail := avail[1..];
      queue.signal := signal;
    }

    /** Moves the first free node, with a signal in it, to the end of the pending list. */
    method Enqueue(signal: Signal)
      requires Lists(phead) && pavail != null && (pending != [] ==> ptail == pending[|pending| - 1])
      modifies this`phead, this`ptail, this`pavail, this`pending, this`avail, pool
      ensures Lists(phead) && pool == old(pool) && pending != [] && ptail == pending[|pending| - 1]
      ensures |pending| == |old(pending)| + 1 && SignalsOf(pending) == old(SignalsOf(pending)) + [signal]
    {
      var queue := TakeNode(signal);
      Append(queue);
      assert pending[|pending| - 1].signal == signal;
    }

    /** The delay branch of zend_signal_handler_defer. */
    method Delay(signal: Signal)
      requires Valid() && active && depth > 0
      modifies this`blocked, this`phead, this`ptail, this`pavail, this`pending, this`avail, pool
      ensures Valid() && pool == old(pool)
      ensures View() == Defer(old(View()), signal, [], capacity)
    {
      blocked := 1;
      if pavail != null {
        Enqueue(signal);
      }
    }

    /** Returns the first node of a pending list to the free list. */
    method Recycle(queue: Node) returns (next: Node?)
      requires Lists(queue)
      modifies this`pavail, this`pending, this`avail, pool
      ensures Lists(next) && pool == old(pool) && pending == old(pending)[1..]
      ensures SignalsOf(pending) == old(SignalsOf(pending))[1..]
    {
      next := queue.next;
      queue.next := pavail;
      queue.signal := queue.signal.(signo := 0);
      pavail := queue;
      pending, avail := pending[1..], [queue] + avail;
    }

    /** One round of the drain loop. */
    method HandleFirst(queue: Node) returns (next: Node?, ghost during: seq<Signal>)
      requires Lists(queue) && Busy()
      modifies this, pool
      ensures Lists(next) && Busy() && pool == old(pool) && pending == old(pending)[1..]
      ensures SignalsOf(pending) == old(SignalsOf(pending))[1..]
      ensures unchanged(this`phead, this`running) && (blocked == 0 || blocked == old(blocked))
      ensures delivered == old(delivered) + [old(SignalsOf(pending))[0]] && during + incoming == old(incoming)
      decreases |incoming|, 2
    {
      during := CallHandler(queue.signal);
      next := Recycle(queue);
    }

    /** The drain loop of zend_signal_handler_defer: ptail is left as it is. */
    method Drain() returns (ghost during: seq<Signal>)
      requires Consistent() && Busy()
      modifies this, pool
      ensures Consistent() && Busy() && pool == old(pool) && pending == []
      ensures unchanged(this`running) && (blocked == 0 || blocked == old(blocked))
      ensures delivered == old(delivered) + old(SignalsOf(pending)) && during + incoming == old(incoming)
      decreases |incoming|, 3
    {
      ghost var signals, handled: seq<Signal> := SignalsOf(pending), [];
      var queue := phead;
      phead, during := null, [];
      while queue != null
        invariant phead == null && pool == old(pool) && Lists(queue) && Busy()
        invariant unchanged(this`running) && (blocked == 0 || blocked == old(blocked))
        invariant handled + SignalsOf(pending) == signals && delivered == old(delivered) + handled
        invariant during + incoming == old(incoming)
        decreases |pending|
      {
        OneHandled(old(delivered), handled, SignalsOf(pending));
        handled := handled + [SignalsOf(pending)[0]];
        ghost var more;
        queue, more := HandleFirst(queue);
        during := during + more;
      }
    }

    /** zend_signal_handler: it leaves the globals alone, but signals may arrive while it runs. */
    method CallHandler(signal: Signal) returns (ghost during: seq<Signal>)
      requires Busy() || !active
      modifies this, pool
      ensures Undrained() && during + incoming == old(incoming)
      ensures delivered == old(delivered) + [signal] + if active then [] else during
      decreases |incoming|, 1
    {
      delivered := delivered + [signal];
      during := [];
      var left: nat :| left <= |incoming|;
      while |incoming| > left
        invariant Undrained() && during + incoming == old(incoming)
        invariant delivered == old(delivered) + [signal] + if active then [] else during
        decreases |incoming|
      {
        var next := incoming[0];
        incoming := incoming[1..];
        ghost var more := HandlerDefer(next);
        during := during + [next] + more;
      }
    }

    /** The part of zend_signal_handler_defer that runs handlers. */
    method Handle(signal: Signal) returns (ghost during: seq<Signal>)
      requires Valid() && active && depth == 0 && blocked == 0
      modifies this, pool
      ensures Valid() && pool == old(pool) && during + incoming == old(incoming)
      ensures active && depth == 0 && blocked == 0 && pending == []
      ensures delivered == old(delivered) + [signal] + old(SignalsOf(pending))
      decreases |incoming|, 4
    {
      running := 1;
      during := CallHandler(signal);
      assert SignalsOf(pending) == old(SignalsOf(pending));
      ghost var more := Drain();
      during := during + more;
      running := 0;
    }

    /** zend_signal_handler_defer.  Called while a handler is running at depth 0 it only clears
        `blocked`: the signal is forgotten. */
    method HandlerDefer(signal: Signal) returns (ghost during: seq<Signal>)
      requires Valid() || Busy() || !active
      modifies this, pool
      ensures pool == old(pool) && during + incoming == old(incoming)
      ensures old(Busy()) ==> Undrained() && blocked == 0 && during == [] && delivered == old(delivered)
      ensures old(!active) ==> Undrained() && delivered == old(delivered) + [signal] + during
      ensures old(Valid()) ==> Valid() && View() == Defer(old(View()), signal, during, capacity)
      ensures old(Valid()) && during != [] ==> old(Handles(View(), Arrive(signal, [])))
      decreases |incoming|, 5
    {
      during := [];
      if active {
        if depth == 0 {
          if blocked != 0 {
            blocked := 0;
          }
          if running == 0 {
            during := Handle(signal);
          }
        } else {
          Delay(signal);
        }
      } else {
        during := CallHandler(signal);
      }
    }

    /** zend_signal_handler_unblock: pass the first pending signal on, at depth 0. */
    method HandlerUnblock() returns (ghost during: seq<Signal>)
      requires Valid() && pending != []
      modifies this, pool
      ensures Valid() && pool == old(pool) && during + incoming == old(incoming)
      ensures var s := old(View());
              View() == Defer(s.(pending := s.pending[1..]), s.pending[0], during, capacity)
      ensures during != [] ==> old(!active || depth == 0)
    {
      var signal := phead.signal;
      phead := Recycle(phead);
      assert Valid() && View() == old(View()).(pending := old(View()).pending[1..]);
      during := HandlerDefer(signal);
    }

    /** ZEND_SIGNAL_UNBLOCK_INTERRUPTIONS */
    method UnblockInterruptions() returns (ghost during: seq<Signal>)
      requires Valid() && Enabled(View(), Unblock([]))
      modifies this, pool
      ensures Valid() && pool == old(pool) && during + incoming == old(incoming)
      ensures old(Enabled(View(), Unblock(during))) && View() == Step(old(View()), Unblock(during), capacity)
    {
      var fires := depth == blocked;
      depth := depth - 1;
      during := [];
      if fires {
        during := HandlerUnblock();
      }
    }
  }
}
