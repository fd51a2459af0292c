/** What the fixed pool does, on the order of its slices and the set of those handed out. */
module PoolSpec {
  import opened Sequences

  datatype State<S> = State(list: seq<S>, locked: set<S>)

  datatype Taken<S> = Nothing | Slice(slice: S)

  function Members<S(==)>(list: seq<S>): set<S> {
    set x | x in list
  }

  /** No slice occurs twice, and the free slices form a prefix. */
  ghost predicate Inv<S>(s: State<S>) {
    |s.list| >= 2 && Distinct(s.list) && s.locked <= Members(s.list) && FreeFirst(s.list, s.locked)
  }

  /** Behind a locked slice all are locked. */
  ghost predicate FreeFirst<S>(list: seq<S>, locked: set<S>) {
    forall i, j | 0 <= i < j < |list| :: list[i] in locked ==> list[j] in locked
  }

  function Alloc<S(==)>(s: State<S>): (r: (State<S>, Taken<S>))
    requires |s.list| > 0
  {
    var slice := s.list[0];
    if slice in s.locked then (s, Nothing)
    else (State(s.list[1..] + [slice], s.locked + {slice}), Slice(slice))
  }

  function Without<S(==)>(list: seq<S>, x: S): seq<S> {
    if list == [] then [] else (if list[0] == x then [] else [list[0]]) + Without(list[1..], x)
  }

  function Free<S(==)>(s: State<S>, slice: S): State<S> {
    State([slice] + Without(s.list, slice), s.locked - {slice})
  }

  lemma {:induction false} WithoutAt<S>(list: seq<S>, j: nat)
    requires j < |list| && Distinct(list)
    ensures Without(list, list[j]) == list[..j] + list[j + 1..]
  {
    var rest := list[1..];
    if j == 0 {
      WithoutAbsent(rest, list[0]);
      assert [] + rest == list[..0] + list[1..];
    } else {
      WithoutAt(rest, j - 1);
      assert [list[0]] + (rest[..j - 1] + rest[j..]) == list[..j] + list[j + 1..];
    }
  }

  /** Moving index j to the front. */
  lemma FrontMoved<S>(list: seq<S>, j: nat)
    requires j < |list| && Distinct(list)
    ensures var r := [list[j]] + Without(list, list[j]);
            && |r| == |list| && multiset(r) == multiset(list)
            && r[0] == list[j]
            && (forall i | 0 < i <= j :: r[i] == list[i - 1])
            && (forall i | j < i < |list| :: r[i] == list[i])
  {
    WithoutAt(list, j);
    FrontShape(list, j);
  }

  lemma FrontShape<S>(list: seq<S>, j: nat)
    requires j < |list|
    ensures var r := [list[j]] + (list[..j] + list[j + 1..]);
            && |r| == |list| && multiset(r) == multiset(list)
            && r[0] == list[j]
            && (forall i | 0 < i <= j :: r[i] == list[i - 1])
            && (forall i | j < i < |list| :: r[i] == list[i])
  {
    assert list == list[..j] + [list[j]] + list[j + 1..];
  }

  lemma SameMembers<S>(a: seq<S>, b: seq<S>)
    requires multiset(a) == multiset(b)
    ensures Members(a) == Members(b)
  {
    assert forall x :: x in Members(a) <==> x in multiset(a);
    assert forall x :: x in Members(b) <==> x in multiset(b);
  }

  lemma {:induction false} WithoutAbsent<S>(list: seq<S>, x: S)
    requires x !in list
    ensures Without(list, x) == list
  {
    if list != [] { WithoutAbsent(list[1..], x); }
  }

  lemma AllocKeepsInv<S>(s: State<S>)
    requires Inv(s)
    ensures Inv(Alloc(s).0) && multiset(Alloc(s).0.list) == multiset(s.list)
  {
    assert s.list == [s.list[0]] + s.list[1..];
    SameMembers(Alloc(s).0.list, s.list);
  }

  /** An allocation keeps the invariant and the slices; it hands out a slice that nobody has,
      and fails exactly when all are handed out. */
  lemma AllocSpec<S>(s: State<S>)
    requires Inv(s)
    ensures var (s', r) := Alloc(s);
            && Inv(s') && multiset(s'.list) == multiset(s.list)
            && (r == Nothing <==> s.locked == Members(s.list))
            && (r == Nothing ==> s' == s)
            && (r != Nothing ==> r.slice in s.list && r.slice !in s.locked && s'.locked == s.locked + {r.slice})
            && (r != Nothing ==> s.list == [r.slice] + s.list[1..] && s'.list == s.list[1..] + [r.slice])
  {
    var (s', r) := Alloc(s);
    AllocKeepsInv(s);
    if r == Nothing {
      forall x | x in s.list ensures x in s.locked {
        var i :| 0 <= i < |s.list| && s.list[i] == x;
      }
    } else {
      assert r.slice in Members(s.list);
    }
  }

  /** Freeing any slice, handed out or not, keeps the invariant and the slices, and takes
      exactly that slice out of the set of those handed out. */
  lemma FreeSpec<S>(s: State<S>, slice: S)
    requires Inv(s) && slice in Members(s.list)
    ensures Inv(Free(s, slice)) && multiset(Free(s, slice).list) == multiset(s.list)
    ensures Free(s, slice).locked == s.locked - {slice}
  {
    var j :| 0 <= j < |s.list| && s.list[j] == slice;
    FrontMoved(s.list, j);
    SameMembers(Free(s, slice).list, s.list);
    DistinctInAnyOrder(s.list, Free(s, slice).list);
    FrontFreeFirst(s.list, s.locked, j, Free(s, slice).list);
  }

  lemma FrontFreeFirst<S>(list: seq<S>, locked: set<S>, j: nat, r: seq<S>)
    requires j < |list| == |r| && Distinct(list) && FreeFirst(list, locked) && r[0] == list[j]
    requires (forall i | 0 < i <= j :: r[i] == list[i - 1]) && forall i | j < i < |list| :: r[i] == list[i]
    ensures FreeFirst(r, locked - {list[j]})
  {
    forall i, k | 0 <= i < k < |r| && r[i] in locked - {list[j]} ensures r[k] in locked - {list[j]} {
      assert r[k] == list[if k <= j then k - 1 else k] && r[i] == list[if i <= j then i - 1 else i];
    }
  }

  /** It moves the slice to the front of the others, which keep their order. */
  lemma FreeOrder<S>(s: State<S>, j: nat)
    requires Inv(s) && j < |s.list|
    ensures Free(s, s.list[j]).list == [s.list[j]] + s.list[..j] + s.list[j + 1..]
  {
    WithoutAt(s.list, j);
  }

  /** A second free of the same slice changes nothing. */
  lemma FreeTwice<S>(s: State<S>, slice: S)
    requires Inv(s) && slice in Members(s.list)
    ensures Free(Free(s, slice), slice) == Free(s, slice)
  {
    FreeSpec(s, slice);
    var r := Free(s, slice);
    WithoutAt(r.list, 0);
    assert [slice] + r.list[1..] == r.list;
    assert Without(r.list, slice) == r.list[..0] + r.list[1..] == r.list[1..];
  }

  /** Freeing the slice that was just handed out undoes the allocation. */
  lemma FreeUndoesAlloc<S>(s: State<S>)
    requires Inv(s) && Alloc(s).1 != Nothing
    ensures Free(Alloc(s).0, Alloc(s).1.slice) == s
  {
    var t, slice := Alloc(s).0, s.list[0];
    AllocKeepsInv(s);
    var last := |t.list| - 1;
    WithoutAt(t.list, last);
    assert [slice] + (t.list[..last] + t.list[last + 1..]) == s.list;
    assert t.locked - {slice} == s.locked;
  }

  // ----- runs

  datatype Op<S> = AllocOp | FreeOp(slice: S)

  function Step<S(==)>(s: State<S>, op: Op<S>): State<S>
    requires |s.list| > 0
  {
    match op
    case AllocOp => Alloc(s).0
    case FreeOp(slice) => Free(s, slice)
  }

  ghost function Run<S>(s: State<S>, ops: seq<Op<S>>): (r: State<S>)
    requires Inv(s) && forall op | op in ops :: op.FreeOp? ==> op.slice in Members(s.list)
    ensures Inv(r) && multiset(r.list) == multiset(s.list) && Members(r.list) == Members(s.list)
    decreases |ops|
  {
    if ops == [] then s
    else
      var t := Step(s, ops[0]);
      StepSpec(s, ops[0]);
      Run(t, ops[1..])
  }

  lemma StepSpec<S>(s: State<S>, op: Op<S>)
    requires Inv(s) && (op.FreeOp? ==> op.slice in Members(s.list))
    ensures Inv(Step(s, op)) && multiset(Step(s, op).list) == multiset(s.list)
    ensures Members(Step(s, op).list) == Members(s.list)
  {
    if op.AllocOp? { AllocSpec(s); } else { FreeSpec(s, op.slice); }
    SameMembers(Step(s, op).list, s.list);
  }

  /** After any run of allocations and frees, repeated frees included, an allocation fails exactly
      when all the pool's slices are handed out, and otherwise gives one of them that is not. */
  lemma AllocAfterRun<S>(s: State<S>, ops: seq<Op<S>>)
    requires Inv(s) && forall op | op in ops :: op.FreeOp? ==> op.slice in Members(s.list)
    ensures var r := Run(s, ops);
            && (Alloc(r).1 == Nothing <==> r.locked == Members(s.list))
            && (Alloc(r).1 != Nothing ==> Alloc(r).1.slice in Members(s.list) && Alloc(r).1.slice !in r.locked)
  {
    var r := Run(s, ops);
    AllocSpec(r);
  }

  /** k allocations in a row. */
  function AllocMany<S(==)>(s: State<S>, k: nat): (r: (State<S>, seq<Taken<S>>))
    requires |s.list| > 0
    ensures |r.0.list| == |s.list| && |r.1| == k
  {
    if k == 0 then (s, [])
    else
      var (t, taken) := AllocMany(s, k - 1);
      var (u, x) := Alloc(t);
      (u, taken + [x])
  }

  /** While free slices are left, allocations in a row hand out the slices in list order, so
      each is handed out once; the one after the last free slice gets nothing. */
  lemma {:induction false} AllocManySpec<S>(s: State<S>, k: nat)
    requires Inv(s) && k <= |s.list| && forall i | 0 <= i < k :: s.list[i] !in s.locked
    ensures var (t, taken) := AllocMany(s, k);
            && t.list == s.list[k..] + s.list[..k]
            && t.locked == s.locked + (set i | 0 <= i < k :: s.list[i])
            && forall i | 0 <= i < k :: taken[i] == Slice(s.list[i])
  {
    if k > 0 {
      AllocManySpec(s, k - 1);
      var (t, taken) := AllocMany(s, k - 1);
      assert t.list[0] == s.list[k - 1];
      assert t.list[0] !in t.locked;
      RotateStep(s.list, k);
    }
  }

  lemma RotateStep<S>(list: seq<S>, k: nat)
    requires 0 < k <= |list|
    ensures var r := list[k - 1..] + list[..k - 1];
            r[1..] + [r[0]] == list[k..] + list[..k]
  {
  }
}

/** Where the slices lie, and where line 110 of swFixedPool_free looks for one. */
module PoolLayout {
  import opened PoolSpec

  /** A slice has `header` bytes of its own and `size` bytes behind them; its member data, whose
      address is handed out, is at `offset`. */
  datatype Layout = Layout(memory: nat, header: nat, size: nat, count: nat, offset: nat)

  predicate IsLayout(l: Layout) {
    0 < l.memory && 0 < l.header && l.offset <= l.header
  }

  function Stride(l: Layout): nat {
    l.header + l.size
  }

  function SliceAt(l: Layout, k: nat): nat {
    if k == 0 then l.memory else SliceAt(l, k - 1) + Stride(l)
  }

  function Addresses(l: Layout, n: nat): set<int> {
    set k: nat | k < n :: SliceAt(l, k)
  }

  /** slice->data */
  function Given(l: Layout, slice: nat): nat {
    slice + l.offset
  }

  /** The assertion of swFixedPool_free: ptr is inside the pool's memory, which ends behind its
      last slice. */
  predicate Asserted(l: Layout, ptr: nat) {
    l.memory < ptr < SliceAt(l, l.count)
  }

  /** What becomes of a call: the assertion fails, or the memory taken for a slice is none, or
      the slice at an address is freed. */
  datatype Outcome = Aborted | Astray | Freed(slice: int)

  function FreeOutcome(l: Layout, ptr: nat): Outcome {
    var slice := ptr - l.header;
    if !Asserted(l, ptr) then Aborted else if slice in Addresses(l, l.count) then Freed(slice) else Astray
  }

  lemma {:induction false} SlicesApart(l: Layout, j: nat, k: nat)
    requires j < k
    ensures SliceAt(l, j) + Stride(l) <= SliceAt(l, k)
  {
    if j + 1 < k { SlicesApart(l, j, k - 1); }
  }

  /** The pool's memory has `size` and `header` bytes for each slice. */
  lemma {:induction false} MemorySize(l: Layout, n: nat)
    ensures SliceAt(l, n) == l.memory + n * l.size + n * l.header
  {
    if n > 0 {
      MemorySize(l, n - 1);
      assert n * l.size == (n - 1) * l.size + l.size && n * l.header == (n - 1) * l.header + l.header;
    }
  }

  /** The assertion fails for the pointer handed out with slice k exactly when that is the start
      or, with no memory behind the headers, the end of the pool. */
  lemma AssertionFailsIff(l: Layout, k: nat)
    requires IsLayout(l) && k < l.count
    ensures !Asserted(l, Given(l, SliceAt(l, k))) <==>
            (k == 0 && l.offset == 0) || (k + 1 == l.count && l.offset == l.header && l.size == 0)
  {
    SlicesApart(l, k, l.count);
    if k > 0 { SlicesApart(l, 0, k); }
    if k + 1 < l.count { SlicesApart(l, k + 1, l.count); }
  }

  /** Line 110 turns the pointer handed out with slice k into the address of a slice exactly when
      data starts where the header ends, and then it is slice k, or when slices are headers
      alone with data in front, and then it is the slice before. */
  lemma FoundIff(l: Layout, k: nat, j: nat)
    requires IsLayout(l) && k < l.count && j < l.count
    ensures Given(l, SliceAt(l, k)) - l.header == SliceAt(l, j) <==>
            (l.offset == l.header && j == k) || (l.offset == 0 && l.size == 0 && j + 1 == k)
  {
    if j < k {
      if j + 1 < k { SlicesApart(l, j, k - 1); }
    } else if k < j {
      SlicesApart(l, k, j);
    }
  }

  /** What the code does with a pointer it handed out. */
  lemma OutcomeOfGiven(l: Layout, k: nat)
    requires IsLayout(l) && k < l.count
    ensures FreeOutcome(l, Given(l, SliceAt(l, k))) ==
            if l.offset == l.header then
              if l.size == 0 && k + 1 == l.count then Aborted else Freed(SliceAt(l, k))
            else if l.offset == 0 && k == 0 then Aborted
            else if l.offset == 0 && l.size == 0 then Freed(SliceAt(l, k - 1))
            else Astray
  {
    AssertionFailsIff(l, k);
    forall j: nat | j < l.count
      ensures Given(l, SliceAt(l, k)) - l.header == SliceAt(l, j) <==>
              (l.offset == l.header && j == k) || (l.offset == 0 && l.size == 0 && j + 1 == k)
    {
      FoundIff(l, k, j);
    }
  }

  /** So the slice that was handed out is freed exactly when data starts where the header ends,
      and a slice without memory is not the last one. */
  lemma FreesItsSliceIff(l: Layout, k: nat)
    requires IsLayout(l) && k < l.count
    ensures FreeOutcome(l, Given(l, SliceAt(l, k))) == Freed(SliceAt(l, k)) <==>
            l.offset == l.header && (l.size > 0 || k + 1 < l.count)
  {
    OutcomeOfGiven(l, k);
  }

  /** With data as the first member, as the struct declares it, no slice is freed at all: the
      assertion fails for the first slice, and every other pointer leads to no slice of the pool. */
  lemma DataFirst(l: Layout, k: nat)
    requires IsLayout(l) && k < l.count && l.offset == 0 && l.size > 0
    ensures FreeOutcome(l, Given(l, SliceAt(l, k))) == if k == 0 then Aborted else Astray
    ensures forall j: nat | j < l.count :: Given(l, SliceAt(l, k)) - l.header != SliceAt(l, j)
  {
    OutcomeOfGiven(l, k);
    forall j: nat | j < l.count ensures Given(l, SliceAt(l, k)) - l.header != SliceAt(l, j) { FoundIff(l, k, j); }
  }

  /** A call of swFixedPool_free, on the addresses of the slices. */
  function FreeCall(l: Layout, s: State<int>, ptr: nat): State<int> {
    match FreeOutcome(l, ptr)
    case Freed(slice) => Free(s, slice)
    case _ => s
  }

  /** Giving a pointer back at once undoes the allocation under exactly the same condition, and
      with data first it does nothing: the slice stays handed out. */
  lemma GivenBack(l: Layout, s: State<int>, k: nat)
    requires IsLayout(l) && k < l.count && Inv(s) && Alloc(s).1 == Slice(SliceAt(l, k))
    ensures FreeCall(l, Alloc(s).0, Given(l, SliceAt(l, k))) == s <==>
            l.offset == l.header && (l.size > 0 || k + 1 < l.count)
    ensures l.offset == 0 && l.size > 0 ==> FreeCall(l, Alloc(s).0, Given(l, SliceAt(l, k))) == Alloc(s).0
  {
    OutcomeOfGiven(l, k);
    FreeUndoesAlloc(s);
    var t := FreeCall(l, Alloc(s).0, Given(l, SliceAt(l, k)));
    assert FreeOutcome(l, Given(l, SliceAt(l, k))) != Freed(SliceAt(l, k)) ==> SliceAt(l, k) in t.locked;
  }

  // ----- runs of calls

  /** An allocation, or a free of the pointer that is handed out with slice k. */
  datatype Call = AllocCall | FreeOf(k: nat)

  function Calls(l: Layout, s: State<int>, calls: seq<Call>): (r: State<int>)
    requires |s.list| > 0
    ensures |r.list| > 0
  {
    if calls == [] then s
    else
      var t := Calls(l, s, calls[..|calls| - 1]);
      match calls[|calls| - 1]
      case AllocCall => Alloc(t).0
      case FreeOf(k) => FreeCall(l, t, Given(l, SliceAt(l, k)))
  }

  function AllocCalls(calls: seq<Call>): nat {
    if calls == [] then 0
    else AllocCalls(calls[..|calls| - 1]) + if calls[|calls| - 1].AllocCall? then 1 else 0
  }

  /** With data first a run of calls does what its allocations alone do, so the pool runs dry
      however much is freed. */
  lemma {:induction false} DataFirstLeaks(l: Layout, s: State<int>, calls: seq<Call>)
    requires IsLayout(l) && l.offset == 0 && l.size > 0 && |s.list| > 0
    requires forall c | c in calls && c.FreeOf? :: c.k < l.count
    ensures Calls(l, s, calls) == AllocMany(s, AllocCalls(calls)).0
  {
    if calls != [] {
      DataFirstLeaks(l, s, calls[..|calls| - 1]);
      var last := calls[|calls| - 1];
      if last.FreeOf? { DataFirst(l, last.k); }
    }
  }
}

/** The pool itself: slices linked both ways, with a lock byte each. */
module FixedPool {
  import opened Sequences
  import opened PoolSpec
  import opened PoolLayout

  class PoolSlice {
    const address: int
    var next: PoolSlice?
    var pre: PoolSlice?
    var lock: bool

    constructor (address: int)
      ensures this.address == address && next == null && pre == null && !lock
    {
      this.address := address;
      next, pre, lock := null, null, false;
    }
  }

  ghost predicate Linked(list: seq<PoolSlice>)
    reads list`next, list`pre
  {
    && Distinct(list)
    && (forall i {:trigger list[i].next} | 0 <= i < |list| ::
          list[i].next == if i + 1 < |list| then list[i + 1] else null)
    && (forall i {:trigger list[i].pre} | 0 <= i < |list| ::
          list[i].pre == if i > 0 then list[i - 1] else null)
  }

  class Pool {
    const layout: Layout
    var slices: map<int, PoolSlice>   // the slice at an address
    var head: PoolSlice
    var tail: PoolSlice
    var sliceUse: nat
    ghost var list: seq<PoolSlice>
    ghost var locked: set<PoolSlice>

    ghost function View(): State<PoolSlice>
      reads this
    {
      State(list, locked)
    }

    ghost predicate LocksRight()
      reads this, list
    {
      (forall x | x in list :: x.lock <==> x in locked) && sliceUse == |locked|
    }

    ghost predicate Valid()
      reads this, list
    {
      Linked(list) && Inv(View()) && Ends() && LocksRight() && IsLayout(layout) && Placed(layout.count)
    }

    /** The slices of the list are those at the first n addresses. */
    ghost predicate Placed(n: nat)
      reads this`slices, this`list
    {
      && slices.Keys == Addresses(layout, n)
      && (forall a | a in slices :: slices[a].address == a && slices[a] in list)
      && forall x | x in list :: x.address in slices && slices[x.address] == x
    }

    /** The pool as it starts: all slices linked and free. */
    constructor (layout: Layout)
      requires IsLayout(layout) && layout.count >= 2
      ensures Valid() && this.layout == layout && |list| == layout.count && View().locked == {} && fresh(list)
    {
      var first := new PoolSlice(SliceAt(layout, 0));
      this.layout := layout;
      slices := map[SliceAt(layout, 0) := first];
      head, tail, sliceUse := first, first, 0;
      list, locked := [first], {};
      new;
      for i := 1 to layout.count
        invariant Starting(i) && fresh(list)
      {
        AddSlice(i);
        assert forall x | x in list :: x == list[0] || x in list[1..];
      }
      Started();
    }

    lemma Started()
      requires IsLayout(layout) && layout.count >= 2 && Starting(layout.count)
      ensures Valid() && |list| == layout.count && View().locked == {}
    {
    }

    /** The pool with its first n slices, all free. */
    ghost predicate Starting(n: nat)
      reads this, list
    {
      && Linked(list) && |list| == n > 0 && head == list[0] && tail == list[n - 1]
      && sliceUse == 0 && locked == {} && (forall x | x in list :: !x.lock)
      && Placed(n)
    }

    /** Slice i, linked in front of those before it. */
    method AddSlice(i: nat)
      requires IsLayout(layout) && Starting(i)
      modifies this`head, this`slices, this`list, list`pre
      ensures Starting(i + 1) && fresh(list[0]) && list[1..] == old(list)
    {
      AddressAbove(layout, i);
      var slice := new PoolSlice(SliceAt(layout, i));
      slices := slices[slice.address := slice];
      slice.next := head;
      head.pre := slice;
      head := slice;
      list := [slice] + list;
    }

    ghost predicate Ends()
      reads this
    {
      |list| >= 2 && head == list[0] && tail == list[|list| - 1]
    }

    /** The relinking of swFixedPool_alloc: the first slice becomes the last. */
    method HeadToTail()
      requires Linked(list) && Ends()
      modifies this`head, this`tail, this`list, list`pre, list`next
      ensures Linked(list) && Ends() && list == old(list)[1..] + [old(list)[0]]
    {
      var slice := head;
      assert slice.next == list[1];
      head := slice.next;
      slice.next.pre := null;
      tail.next := slice;
      slice.next := null;
      slice.pre := tail;
      tail := slice;
      list := list[1..] + [slice];
    }

    /** The first half of the relinking of swFixedPool_free, for a slice that is not first. */
    method Unlink(slice: PoolSlice, ghost j: nat)
      requires Linked(list) && Ends() && 0 < j < |list| && list[j] == slice
      modifies this`tail, this`list, list`pre, list`next
      ensures list == old(list)[..j] + old(list)[j + 1..]
      ensures Linked(list) && head == list[0] && tail == list[|list| - 1]
    {
      assert slice.pre == list[j - 1];
      if slice.next == null {
        slice.pre.next := null;
        tail := slice.pre;
      } else {
        assert slice.next == list[j + 1];
        slice.pre.next := slice.next;
        slice.next.pre := slice.pre;
      }
      list := list[..j] + list[j + 1..];
    }

    /** The second half. */
    method PushFront(slice: PoolSlice)
      requires Linked(list) && list != [] && slice !in list
      requires head == list[0] && tail == list[|list| - 1]
      modifies this`head, this`list, list`pre, list`next, slice`pre, slice`next
      ensures Linked(list) && Ends() && list == [slice] + old(list)
    {
      slice.pre := null;
      slice.next := head;
      head.pre := slice;
      head := slice;
      list := [slice] + list;
    }

    method Acquire(slice: PoolSlice)
      requires LocksRight() && slice in list && !slice.lock
      modifies slice`lock, this`sliceUse, this`locked
      ensures LocksRight() && locked == old(locked) + {slice}
    {
      slice.lock := true;
      sliceUse := sliceUse + 1;
      locked := locked + {slice};
    }

    method Release(slice: PoolSlice)
      requires LocksRight() && slice in list
      modifies slice`lock, this`sliceUse, this`locked
      ensures LocksRight() && locked == old(locked) - {slice}
    {
      if slice.lock {
        sliceUse := sliceUse - 1;
      }
      slice.lock := false;
      locked := locked - {slice};
    }

    /** swFixedPool_alloc, with the three slips of the file repaired. */
    method Alloc() returns (ptr: nat)
      requires Valid()
      modifies this`head, this`tail, this`sliceUse, this`list, this`locked, list
      ensures Valid()
      ensures var (s, r) := PoolSpec.Alloc(old(View()));
              View() == s && ptr == match r case Nothing => 0 case Slice(x) => Given(layout, x.address)
    {
      var slice := head;
      if slice.lock {
        return 0;
      }
      HandOut(slice);
      AllocSpec(old(View()));
      SamePlaces(old(list));
      ptr := Given(layout, slice.address);
    }

    method HandOut(slice: PoolSlice)
      requires Linked(list) && Ends() && LocksRight() && slice == head && !slice.lock
      modifies this`head, this`tail, this`sliceUse, this`list, this`locked, list
      ensures Linked(list) && Ends() && LocksRight() && State(list, locked) == PoolSpec.Alloc(old(View())).0
    {
      Acquire(slice);
      HeadToTail();
    }

    /** Where the slices are does not depend on their order. */
    lemma SamePlaces(before: seq<PoolSlice>)
      requires multiset(list) == multiset(before)
      requires slices.Keys == Addresses(layout, layout.count)
      requires forall a | a in slices :: slices[a].address == a && slices[a] in before
      requires forall x | x in before :: x.address in slices && slices[x.address] == x
      ensures Placed(layout.count) && forall x :: x in list <==> x in before
    {
      SameMembers(list, before);
      forall x ensures x in list <==> x in before { assert x in Members(list) <==> x in Members(before); }
    }

    /** The relinking of swFixedPool_free: the slice, which is at index j, becomes the first. */
    method Relink(slice: PoolSlice, ghost j: nat)
      requires Linked(list) && Ends() && j < |list| && list[j] == slice
      modifies this`head, this`tail, this`list, list`pre, list`next
      ensures Linked(list) && Ends() && list == [slice] + (old(list)[..j] + old(list)[j + 1..])
    {
      if slice.pre == null {
        assert j == 0 && list == [slice] + (list[..0] + list[1..]);
        return;
      }
      Unlink(slice, j);
      PushFront(slice);
    }

    /** The same, on the list as a sequence. */
    method ToFront(slice: PoolSlice)
      requires Linked(list) && Ends() && slice in list && LocksRight()
      modifies this`head, this`tail, this`list, list`pre, list`next
      ensures Linked(list) && Ends() && list == [slice] + Without(old(list), slice) && LocksRight()
    {
      ghost var j: nat :| j < |list| && list[j] == slice;
      FrontMoved(list, j);
      WithoutAt(list, j);
      SameMembers([slice] + Without(list, slice), list);
      Relink(slice, j);
      forall x | x in list ensures x in old(list) { assert x in Members(list); }
    }

    /** swFixedPool_free, of any pointer.  Where line 110 leads to no slice, the code would go on
        with whatever is there; this gives up and says so. */
    method Free(ptr: nat) returns (outcome: Outcome)
      requires Valid()
      modifies this`head, this`tail, this`sliceUse, this`list, this`locked, list
      ensures Valid() && outcome == FreeOutcome(layout, ptr)
      ensures View() ==
              match outcome
              case Freed(at) => PoolSpec.Free(old(View()), slices[at])
              case _ => old(View())
    {
      if !Asserted(layout, ptr) { return Aborted; }
      var at := ptr - layout.header;
      if at !in slices { return Astray; }
      FreeSlice(slices[at]);
      outcome := Freed(at);
    }

    /** Lines 112 to 136, of a slice of the list. */
    method Unlock(slice: PoolSlice)
      requires Linked(list) && Ends() && LocksRight() && slice in list
      modifies this`head, this`tail, this`sliceUse, this`list, this`locked, list
      ensures Linked(list) && Ends() && LocksRight() && View() == PoolSpec.Free(old(View()), slice)
    {
      Release(slice);
      ToFront(slice);
    }

    /** The same, of any slice of the pool, handed out or not. */
    method FreeSlice(slice: PoolSlice)
      requires Valid() && slice in list
      modifies this`head, this`tail, this`sliceUse, this`list, this`locked, list
      ensures Valid() && View() == PoolSpec.Free(old(View()), slice)
    {
      Unlock(slice);
      FreeSpec(old(View()), slice);
      SamePlaces(old(list));
    }
  }

  lemma AddressAbove(l: Layout, i: nat)
    requires IsLayout(l)
    ensures SliceAt(l, i) !in Addresses(l, i)
    ensures Addresses(l, i + 1) == Addresses(l, i) + {SliceAt(l, i)}
  {
    forall k: nat | k < i ensures SliceAt(l, k) < SliceAt(l, i) { SlicesApart(l, k, i); }
  }
}
