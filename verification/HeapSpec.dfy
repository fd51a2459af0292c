/** What page allocation does to the whole heap, on values, and what every run of it promises. */
module HeapSpec {
  import opened PageMap
  import opened ChunkPages
  import opened Sequences

  /** ZEND_MM_CHUNK_SIZE */
  const CHUNK_SIZE := 0x20_0000

  /** A chunk of the ring: its address, its pages and its page map. */
  datatype Entry = Entry(address: nat, pages: seq<bool>, marks: seq<PageInfo>)

  datatype State = State(ring: seq<Entry>, cached: seq<nat>, realSize: nat, limit: nat, overflow: bool)

  datatype Reply = Refused | Granted(address: nat, page: nat, count: nat)

  /** The element at index j moved to just behind the first. */
  ghost function MovedToFront<T>(s: seq<T>, j: nat): (r: seq<T>)
    requires 0 < j < |s|
    ensures |r| == |s|
  {
    seq(|s|, i requires 0 <= i < |s| => s[if i == 0 then 0 else if i == 1 then j else if i <= j then i - 1 else i])
  }

  /** The same elements, with the first one first. */
  lemma MovedToFrontSame<T>(s: seq<T>, j: nat)
    requires 0 < j < |s|
    ensures MovedToFront(s, j)[0] == s[0] && multiset(MovedToFront(s, j)) == multiset(s)
    ensures forall x :: x in MovedToFront(s, j) <==> x in s
  {
    assert MovedToFront(s, j) == [s[0]] + [s[j]] + s[1..j] + s[j + 1..];
    assert s == [s[0]] + s[1..j] + [s[j]] + s[j + 1..];
    forall x ensures x in MovedToFront(s, j) <==> x in s {
      assert x in s <==> x in multiset(s);
    }
  }

  ghost function Placed<T>(s: seq<T>, j: nat, steps: nat, k: nat): (r: seq<T>)
    requires j < |s|
    ensures |r| == |s|
  {
    if 0 < j && steps > 2 && k < 8 then MovedToFront(s, j) else s
  }

  /** The chunk after giving k pages from `page` on. */
  ghost function Marked(e: Entry, page: nat, k: nat): Entry {
    Entry(e.address, Allocate(e.pages, page, k), if page < |e.marks| then e.marks[page := LRun(k)] else e.marks)
  }

  /** The heap after its chunk at index `at` gave k pages, and moved to the front if it was far down the ring. */
  ghost function MarkedAt(s: State, at: nat, steps: nat, page: nat, k: nat): State
    requires at < |s.ring|
  {
    s.(ring := Placed(s.ring[at := Marked(s.ring[at], page, k)], at, steps, k))
  }

  /** The heap with a fresh chunk at the end of its ring: a cached one, or one from the system. */
  ghost predicate Added(s: State, address: nat, s': State) {
    var ring := s.ring + [Entry(address, FreshPages(), FreshInfo())];
    if s.cached != []
    then address == s.cached[0] && s' == s.(ring := ring, cached := s.cached[1..])
    else address !in Addresses(s) && s' == s.(ring := ring, realSize := s.realSize + CHUNK_SIZE)
  }

  /** None of the first n chunks has a fit. */
  ghost predicate NoneFits(s: State, n: nat, k: nat)
    requires n <= |s.ring|
  {
    forall i | 0 <= i < n :: NoFit(s.ring[i].pages, k)
  }

  /** Whether get_chunk can get a chunk at all, with zend_mm_gc reclaiming nothing. */
  predicate CanGrow(s: State, osGives: bool) {
    s.cached != [] || ((s.realSize + CHUNK_SIZE <= s.limit || s.overflow) && osGives)
  }

  /** The chunk at index `at`, the first one with a fit, gives k pages at its best fit. */
  ghost predicate ServedAt(s: State, k: nat, at: nat, reply: Reply, s': State) {
    && at < |s.ring| && NoneFits(s, at, k)
    && (exists n :: reply.Granted? && IsBestFit(s.ring[at].pages, k, reply.page, n))
    && reply == Granted(s.ring[at].address, reply.page, k)
    && s' == MarkedAt(s, at, at, reply.page, k)
  }

  /** No chunk has a fit, so a new one gives the pages: a cached one if there is one. */
  ghost predicate Grown(s: State, k: nat, osGives: bool, reply: Reply, s': State) {
    && NoneFits(s, |s.ring|, k) && CanGrow(s, osGives)
    && reply.Granted? && reply == Granted(reply.address, FIRST_PAGE, k) && s.ring != []
    && exists added :: Added(s, reply.address, added) && s' == MarkedAt(added, |s.ring|, |s.ring| - 1, FIRST_PAGE, k)
  }

  /** zend_mm_alloc_pages, for k pages. */
  ghost predicate Serves(s: State, k: nat, osGives: bool, reply: Reply, s': State) {
    match reply
    case Refused => NoneFits(s, |s.ring|, k) && !CanGrow(s, osGives) && s' == s
    case Granted(_, _, _) => Grown(s, k, osGives, reply, s') || exists at :: ServedAt(s, k, at, reply, s')
  }

  /** The heap decides: whether a request is refused, which page it gets and what is left are
      determined, up to the address of a chunk the system gives. */
  lemma ServesUnique(s: State, k: nat, osGives: bool, r: Reply, s': State, q: Reply, s'': State)
    requires Serves(s, k, osGives, r, s') && Serves(s, k, osGives, q, s'')
    ensures r.Granted? <==> q.Granted?
    ensures r.Granted? ==> r.page == q.page && r.count == q.count
    ensures r.Granted? && r.address == q.address ==> r == q && s' == s''
  {
    ServesAt(s, k, osGives, r, s');
    ServesAt(s, k, osGives, q, s'');
    if i: nat :| ServedAt(s, k, i, r, s') {
      var j: nat :| ServedAt(s, k, j, q, s'');
      ServedUnique(s, k, i, r, s', j, q, s'');
    }
  }

  lemma ServedUnique(s: State, k: nat, i: nat, r: Reply, s': State, j: nat, q: Reply, s'': State)
    requires ServedAt(s, k, i, r, s') && ServedAt(s, k, j, q, s'')
    requires !NoFit(s.ring[i].pages, k) && !NoFit(s.ring[j].pages, k)
    ensures r == q && s' == s''
  {
    assert !(i < j) && !(j < i);
    var n: nat :| IsBestFit(s.ring[i].pages, k, r.page, n);
    var m: nat :| IsBestFit(s.ring[i].pages, k, q.page, m);
    BestFitUnique(s.ring[i].pages, k, r.page, n, q.page, m);
  }

  /** Either a chunk of the ring has a fit, and serves, or none has. */
  lemma ServesAt(s: State, k: nat, osGives: bool, r: Reply, s': State)
    requires Serves(s, k, osGives, r, s')
    ensures (exists i: nat :: ServedAt(s, k, i, r, s')) <==> !NoneFits(s, |s.ring|, k)
    ensures forall i: nat | ServedAt(s, k, i, r, s') :: !NoFit(s.ring[i].pages, k)
  {
    forall i: nat | ServedAt(s, k, i, r, s') ensures !NoFit(s.ring[i].pages, k) {
      var n: nat :| IsBestFit(s.ring[i].pages, k, r.page, n);
      assert MaxRun(s.ring[i].pages, r.page, n);
    }
  }

  lemma AddedThenMarked(s: State, k: nat, osGives: bool, address: nat, added: State)
    requires NoneFits(s, |s.ring|, k) && CanGrow(s, osGives) && s.ring != [] && Added(s, address, added)
    ensures Grown(s, k, osGives, Granted(address, FIRST_PAGE, k), MarkedAt(added, |s.ring|, |s.ring| - 1, FIRST_PAGE, k))
  {
  }

  // ----- what one request keeps

  ghost function AddressesOf(ring: seq<Entry>): (a: seq<nat>)
    ensures |a| == |ring| && forall i | 0 <= i < |ring| :: a[i] == ring[i].address
  {
    seq(|ring|, i requires 0 <= i < |ring| => ring[i].address)
  }

  ghost function Addresses(s: State): seq<nat> {
    AddressesOf(s.ring) + s.cached
  }

  /** No chunk is in the heap twice. */
  ghost predicate Inv(s: State) {
    && Distinct(Addresses(s))
    && forall i | 0 <= i < |s.ring| ::
         |s.ring[i].pages| == PAGES && |s.ring[i].marks| == PAGES && s.ring[i].pages[0]
  }

  /** The pages of a reply are marked in its chunk. */
  ghost predicate Holds(s: State, reply: Reply) {
    reply.Granted? ==> exists e :: e in s.ring && HoldsIn(e, reply)
  }

  ghost predicate HoldsIn(e: Entry, reply: Reply)
  {
    && reply.Granted? && e.address == reply.address
    && 1 <= reply.page && 1 <= reply.count && reply.page + reply.count <= |e.pages|
    && forall p | reply.page <= p < reply.page + reply.count :: e.pages[p]
  }

  /** Two replies share no page. */
  predicate Apart(r: Reply, r': Reply) {
    r.Granted? && r'.Granted? ==>
    r.address != r'.address || r.page + r.count <= r'.page || r'.page + r'.count <= r.page
  }

  lemma PlacedSame<T>(s: seq<T>, j: nat, steps: nat, k: nat)
    requires j < |s|
    ensures multiset(Placed(s, j, steps, k)) == multiset(s)
    ensures forall x :: x in Placed(s, j, steps, k) <==> x in s
  {
    if 0 < j && steps > 2 && k < 8 { MovedToFrontSame(s, j); }
  }

  lemma PlacedAddresses(ring: seq<Entry>, j: nat, steps: nat, k: nat)
    requires j < |ring|
    ensures AddressesOf(Placed(ring, j, steps, k)) == Placed(AddressesOf(ring), j, steps, k)
    ensures multiset(AddressesOf(Placed(ring, j, steps, k))) == multiset(AddressesOf(ring))
  {
    assert AddressesOf(Placed(ring, j, steps, k)) == Placed(AddressesOf(ring), j, steps, k);
    PlacedSame(AddressesOf(ring), j, steps, k);
  }

  /** Every request keeps the chunks apart. */
  lemma ServesKeepsInv(s: State, k: nat, osGives: bool, reply: Reply, s': State)
    requires Inv(s) && Serves(s, k, osGives, reply, s')
    ensures Inv(s')
  {
    if at: nat :| ServedAt(s, k, at, reply, s') {
      MarkedKeepsInv(s, at, at, reply.page, k);
    } else if reply.Granted? {
      var added :| Added(s, reply.address, added) && s' == MarkedAt(added, |s.ring|, |s.ring| - 1, FIRST_PAGE, k);
      AddedKeepsInv(s, reply.address, added);
      MarkedKeepsInv(added, |s.ring|, |s.ring| - 1, FIRST_PAGE, k);
    }
  }

  lemma AddedKeepsInv(s: State, address: nat, s': State)
    requires Inv(s) && Added(s, address, s')
    ensures Inv(s')
  {
    assert AddressesOf(s'.ring) == AddressesOf(s.ring) + [address];
    if s.cached != [] {
      assert Addresses(s') == Addresses(s);
    } else {
      DistinctSnoc(Addresses(s), address);
      assert Addresses(s') == Addresses(s) + [address];
    }
  }

  lemma MarkedKeepsInv(s: State, at: nat, steps: nat, page: nat, k: nat)
    requires Inv(s) && at < |s.ring|
    ensures Inv(MarkedAt(s, at, steps, page, k))
  {
    var ring, s' := s.ring[at := Marked(s.ring[at], page, k)], MarkedAt(s, at, steps, page, k);
    assert AddressesOf(ring) == AddressesOf(s.ring);
    PlacedAddresses(ring, at, steps, k);
    DistinctInAnyOrder(Addresses(s), Addresses(s'));
    PlacedSame(ring, at, steps, k);
    forall i | 0 <= i < |s'.ring|
      ensures |s'.ring[i].pages| == PAGES && |s'.ring[i].marks| == PAGES && s'.ring[i].pages[0]
    {
      assert s'.ring[i] in ring;
    }
  }

  /** A request marks the pages it is granted, and takes them from no earlier reply. */
  lemma ServesApart(s: State, k: nat, osGives: bool, reply: Reply, s': State, earlier: Reply)
    requires Inv(s) && 1 <= k < PAGES && Serves(s, k, osGives, reply, s') && Holds(s, earlier)
    ensures Holds(s', reply) && Holds(s', earlier) && Apart(earlier, reply)
  {
    if at: nat :| ServedAt(s, k, at, reply, s') {
      MarkedApart(s, at, at, reply, earlier);
    } else if reply.Granted? {
      var added :| Added(s, reply.address, added) && s' == MarkedAt(added, |s.ring|, |s.ring| - 1, FIRST_PAGE, k);
      AddedKeepsInv(s, reply.address, added);
      AddedHolds(s, reply.address, added, earlier);
      MarkedApart(added, |s.ring|, |s.ring| - 1, reply, earlier);
    }
  }

  lemma AddedHolds(s: State, address: nat, s': State, earlier: Reply)
    requires Added(s, address, s') && Holds(s, earlier)
    ensures Holds(s', earlier)
  {
    if earlier.Granted? {
      var f :| f in s.ring && HoldsIn(f, earlier);
      assert f in s'.ring;
    }
  }

  lemma MarkedApart(s: State, at: nat, steps: nat, reply: Reply, earlier: Reply)
    requires Inv(s) && at < |s.ring| && Holds(s, earlier)
    requires reply.Granted? && reply.address == s.ring[at].address
    requires 1 <= reply.count && FreeWindow(s.ring[at].pages, reply.page, reply.count)
    ensures var s' := MarkedAt(s, at, steps, reply.page, reply.count);
            Holds(s', reply) && Holds(s', earlier) && Apart(earlier, reply)
  {
    var e := s.ring[at];
    var e' := Marked(e, reply.page, reply.count);
    var ring := s.ring[at := e'];
    PlacedSame(ring, at, steps, reply.count);
    assert e' == ring[at] && HoldsIn(e', reply);
    if earlier.Granted? {
      var f :| f in s.ring && HoldsIn(f, earlier);
      var i :| 0 <= i < |s.ring| && s.ring[i] == f;
      if i == at {
        assert HoldsIn(e', earlier);
        FreeIsApart(e.pages, earlier.page, earlier.count, reply.page, reply.count);
      } else {
        assert f == ring[i];
        assert Addresses(s)[i] != Addresses(s)[at];
      }
    }
  }

  lemma FreeIsApart(pages: seq<bool>, p: nat, n: nat, q: nat, k: nat)
    requires 0 < n && p + n <= |pages| && forall i | p <= i < p + n :: pages[i]
    requires 0 < k && FreeWindow(pages, q, k)
    ensures p + n <= q || q + k <= p
  {
    var atP, atQ := pages[p], pages[q];
  }

  // ----- what one request does, without the functions above

  /** A request is refused exactly when no chunk has a run for it, none is cached, and the system has
      none to give or one more would exceed the limit. */
  lemma RefusedIff(s: State, k: nat, osGives: bool, reply: Reply, s': State)
    requires Serves(s, k, osGives, reply, s')
    ensures reply.Refused? <==>
            && (forall i | 0 <= i < |s.ring| :: NoFit(s.ring[i].pages, k)) && s.cached == []
            && (!osGives || (!s.overflow && s.realSize + 0x20_0000 > s.limit))
    ensures reply.Refused? ==> s' == s
  {
    ServesAt(s, k, osGives, reply, s');
  }

  /** The accounts: every new chunk is counted, and the limit is never exceeded. */
  lemma LimitKept(s: State, k: nat, osGives: bool, reply: Reply, s': State)
    requires Serves(s, k, osGives, reply, s')
    ensures s'.limit == s.limit && s'.overflow == s.overflow
    ensures s'.realSize - s.realSize == 0x20_0000 * (|s'.ring| + |s'.cached| - |s.ring| - |s.cached|)
    ensures !s.overflow && s.realSize <= s.limit ==> s'.realSize <= s'.limit
  {
  }

  /** The entry after k pages were given: these pages and the map entry of the first have changed. */
  ghost predicate Gave(e: Entry, e': Entry, page: nat, k: nat) {
    && e'.address == e.address && |e'.pages| == |e.pages| && |e'.marks| == |e.marks|
    && (forall p | 0 <= p < |e.pages| :: e'.pages[p] <==> e.pages[p] || page <= p < page + k)
    && (forall p | 0 <= p < |e.marks| :: e'.marks[p] == if p == page then LRun(k) else e.marks[p])
  }

  /** A chunk of the ring serves: the first that can, with its best fit.  It comes to stand behind the
      main chunk if it was found after more than two steps and fewer than eight pages were asked for;
      nothing else changes. */
  lemma ServedPlain(s: State, k: nat, at: nat, reply: Reply, s': State)
    requires Inv(s) && ServedAt(s, k, at, reply, s')
    ensures forall j | 0 <= j < at :: NoFit(s.ring[j].pages, k)
    ensures reply.address == s.ring[at].address && reply.count == k
    ensures exists n :: IsBestFit(s.ring[at].pages, k, reply.page, n)
    ensures s'.cached == s.cached && s'.realSize == s.realSize && |s'.ring| == |s.ring|
    ensures Gave(s.ring[at], s'.ring[if at > 2 && k < 8 then 1 else at], reply.page, k)
    ensures if at > 2 && k < 8
            then && s'.ring[0] == s.ring[0] && (forall i | 1 < i <= at :: s'.ring[i] == s.ring[i - 1])
                 && forall i | at < i < |s.ring| :: s'.ring[i] == s.ring[i]
            else forall i | 0 <= i < |s.ring| && i != at :: s'.ring[i] == s.ring[i]
  {
    MarkedGave(s.ring[at], reply.page, k);
    assert s'.ring[if at > 2 && k < 8 then 1 else at] == Marked(s.ring[at], reply.page, k);
  }

  lemma MarkedGave(e: Entry, page: nat, k: nat)
    requires |e.pages| == |e.marks|
    ensures Gave(e, Marked(e, page, k), page, k)
  {
  }

  /** A new chunk serves, at page 1: a cached one before one from the system. */
  lemma GrownPlain(s: State, k: nat, osGives: bool, reply: Reply, s': State)
    requires Grown(s, k, osGives, reply, s')
    ensures forall j | 0 <= j < |s.ring| :: NoFit(s.ring[j].pages, k)
    ensures reply.page == 1 && reply.count == k && |s'.ring| == |s.ring| + 1
    ensures if s.cached != []
            then reply.address == s.cached[0] && s'.cached == s.cached[1..] && s'.realSize == s.realSize
            else && reply.address !in Addresses(s) && s'.cached == []
                 && s'.realSize == s.realSize + 0x20_0000 && osGives
    ensures var e := s'.ring[if |s.ring| > 3 && k < 8 then 1 else |s.ring|];
            && e.address == reply.address && |e.pages| == |e.marks| == PAGES
            && (forall p | 0 <= p < PAGES :: e.pages[p] <==> p < 1 + k)
            && forall p | 0 <= p < PAGES :: e.marks[p] == if p == 0 then LRun(1) else if p == 1 then LRun(k) else FreePage
    ensures if |s.ring| > 3 && k < 8
            then s'.ring[0] == s.ring[0] && forall i | 1 < i <= |s.ring| :: s'.ring[i] == s.ring[i - 1]
            else forall i | 0 <= i < |s.ring| :: s'.ring[i] == s.ring[i]
  {
    var added :| Added(s, reply.address, added) && s' == MarkedAt(added, |s.ring|, |s.ring| - 1, FIRST_PAGE, k);
    var fresh' := added.ring[|s.ring|];
    assert fresh' == Entry(reply.address, FreshPages(), FreshInfo());
    assert s'.ring[if |s.ring| > 3 && k < 8 then 1 else |s.ring|] == Marked(fresh', 1, k);
  }

  // ----- runs of pages for small allocations

  /** The heap after the page map of one chunk was given the entries of a small run. */
  ghost function Noted(s: State, address: nat, page: nat, bin: nat, count: nat): State {
    s.(ring := seq(|s.ring|, i requires 0 <= i < |s.ring| =>
      if s.ring[i].address == address then s.ring[i].(marks := SmallMarks(s.ring[i].marks, page, bin, count))
      else s.ring[i]))
  }

  /** The pages of the run, and no others, lead back to its first page and to its bin. */
  lemma NotedPlain(s: State, address: nat, page: nat, bin: nat, count: nat, i: nat)
    requires i < |s.ring| && 1 <= count
    ensures var e, e' := s.ring[i], Noted(s, address, page, bin, count).ring[i];
            && e'.address == e.address && e'.pages == e.pages && |e'.marks| == |e.marks|
            && (e.address != address ==> e' == e)
            && (e.address == address ==>
                  && (page < |e.marks| ==> e'.marks[page] == SRun(bin))
                  && (forall p | page < p < page + count && p < |e.marks| :: e'.marks[p] == NRun(bin, p - page))
                  && (forall p | 0 <= p < |e.marks| && !(page <= p < page + count) :: e'.marks[p] == e.marks[p]))
  {
  }

  /** What zend_mm_alloc_small_slow does to the heap. */
  ghost predicate ServesSmall(s: State, bin: nat, k: nat, osGives: bool, reply: Reply, s': State) {
    exists mid :: Serves(s, k, osGives, reply, mid) &&
                  s' == if reply.Granted? then Noted(mid, reply.address, reply.page, bin, k) else mid
  }

  lemma NotedHolds(s: State, address: nat, page: nat, bin: nat, count: nat, reply: Reply)
    requires Holds(s, reply)
    ensures Holds(Noted(s, address, page, bin, count), reply)
  {
    if reply.Granted? {
      var e :| e in s.ring && HoldsIn(e, reply);
      var i :| 0 <= i < |s.ring| && s.ring[i] == e;
      assert HoldsIn(Noted(s, address, page, bin, count).ring[i], reply);
    }
  }

  // ----- runs of requests

  /** A request is a number of pages and whether the system has a chunk to give if it comes to that. */
  datatype Request = Request(count: nat, osGives: bool)

  ghost predicate IsRun(states: seq<State>, requests: seq<Request>, replies: seq<Reply>) {
    && |states| == |requests| + 1 && |replies| == |requests|
    && forall i | 0 <= i < |requests| ::
         Serves(states[i], requests[i].count, requests[i].osGives, replies[i], states[i + 1])
  }

  lemma RunSnoc(states: seq<State>, requests: seq<Request>, replies: seq<Reply>, n: nat, reply: Reply, s': State)
    requires n < |requests| && IsRun(states, requests[..n], replies)
    requires Serves(states[n], requests[n].count, requests[n].osGives, reply, s')
    ensures IsRun(states + [s'], requests[..n + 1], replies + [reply])
  {
  }

  ghost predicate Proper(requests: seq<Request>) {
    forall i | 0 <= i < |requests| :: 1 <= requests[i].count < PAGES
  }

  /** What was granted in a run stays marked to its end. */
  lemma {:induction false} RunHolds(states: seq<State>, requests: seq<Request>, replies: seq<Reply>, i: nat, j: nat)
    requires IsRun(states, requests, replies) && Proper(requests) && Inv(states[0]) && i < j < |states|
    ensures Inv(states[i]) && Inv(states[j]) && Holds(states[j], replies[i])
    ensures j < |requests| ==> Apart(replies[i], replies[j])
    decreases j
  {
    RunInv(states, requests, replies, i);
    RunInv(states, requests, replies, j);
    var last := j - 1;
    RunInv(states, requests, replies, last);
    if i < last {
      RunHolds(states, requests, replies, i, last);
      ServesApart(states[last], requests[last].count, requests[last].osGives, replies[last], states[j], replies[i]);
    } else {
      ServesApart(states[last], requests[last].count, requests[last].osGives, replies[last], states[j], Refused);
    }
    if j < |requests| {
      ServesApart(states[j], requests[j].count, requests[j].osGives, replies[j], states[j + 1], replies[i]);
    }
  }

  lemma {:induction false} RunInv(states: seq<State>, requests: seq<Request>, replies: seq<Reply>, i: nat)
    requires IsRun(states, requests, replies) && Inv(states[0]) && i < |states|
    ensures Inv(states[i])
  {
    if i > 0 {
      RunInv(states, requests, replies, i - 1);
      ServesKeepsInv(states[i - 1], requests[i - 1].count, requests[i - 1].osGives, replies[i - 1], states[i]);
    }
  }

  /** Over any run of requests the limit is never exceeded. */
  lemma {:induction false} RunLimit(states: seq<State>, requests: seq<Request>, replies: seq<Reply>, i: nat)
    requires IsRun(states, requests, replies) && i < |states|
    requires !states[0].overflow && states[0].realSize <= states[0].limit
    ensures !states[i].overflow && states[i].realSize <= states[i].limit == states[0].limit
  {
    if i > 0 {
      RunLimit(states, requests, replies, i - 1);
      LimitKept(states[i - 1], requests[i - 1].count, requests[i - 1].osGives, replies[i - 1], states[i]);
    }
  }

  /** Over any run of requests no page is granted twice, and every page granted is marked at the end. */
  lemma RunApart(states: seq<State>, requests: seq<Request>, replies: seq<Reply>)
    requires IsRun(states, requests, replies) && Proper(requests) && Inv(states[0])
    ensures forall i, j | 0 <= i < j < |replies| :: Apart(replies[i], replies[j])
    ensures forall i | 0 <= i < |replies| :: Holds(states[|requests|], replies[i])
  {
    forall i, j | 0 <= i < j < |replies| ensures Apart(replies[i], replies[j]) {
      RunHolds(states, requests, replies, i, j);
    }
    forall i | 0 <= i < |replies| ensures Holds(states[|requests|], replies[i]) {
      RunHolds(states, requests, replies, i, |requests|);
    }
  }
}
