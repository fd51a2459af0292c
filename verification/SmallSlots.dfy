/** Small allocations: runs of pages cut into equal slots, and one free list per bin that is
    threaded through the free slots themselves. */
module SlotRuns {
  import opened PageMap
  import opened Sequences
  import opened SizeClasses

  /** A run of BIN_PAGES[bin] pages at address base. */
  datatype SlotRun = SlotRun(base: nat, bin: nat)

  predicate IsSlotRun(r: SlotRun) {
    0 < r.base && r.bin < BINS
  }

  function End(r: SlotRun): nat
    requires IsSlotRun(r)
  {
    r.base + BIN_PAGES[r.bin] * PAGE_SIZE
  }

  /** n slots of the given size, from base on. */
  function Slots(base: nat, size: nat, n: nat): (s: seq<nat>)
    ensures |s| == n
    decreases n
  {
    if n == 0 then [] else [base] + Slots(base + size, size, n - 1)
  }

  function SlotsOf(r: SlotRun): seq<nat> {
    if r.bin < BINS then Slots(r.base, BIN_DATA_SIZE[r.bin], BIN_ELEMENTS[r.bin]) else []
  }

  ghost predicate Disjoint(runs: seq<SlotRun>) {
    && (forall i | 0 <= i < |runs| :: IsSlotRun(runs[i]))
    && forall i, j | 0 <= i < j < |runs| :: End(runs[i]) <= runs[j].base || End(runs[j]) <= runs[i].base
  }

  /** All slots of the runs of one bin. */
  ghost function BinSlots(runs: seq<SlotRun>, bin: nat): seq<nat> {
    if runs == [] then []
    else
      var last := runs[|runs| - 1];
      BinSlots(runs[..|runs| - 1], bin) + if last.bin == bin then SlotsOf(last) else []
  }

  lemma {:induction false} SlotStep(base: nat, size: nat, n: nat, i: nat)
    requires i + 1 < n
    ensures Slots(base, size, n)[i + 1] == Slots(base, size, n)[i] + size
    decreases n
  {
    if i > 0 { SlotStep(base + size, size, n - 1, i - 1); }
  }

  lemma {:induction false} SlotsIncrease(base: nat, size: nat, n: nat, i: nat, j: nat)
    requires i < j < n
    ensures Slots(base, size, n)[i] + size <= Slots(base, size, n)[j]
    decreases j
  {
    SlotStep(base, size, n, j - 1);
    if i < j - 1 { SlotsIncrease(base, size, n, i, j - 1); }
  }

  lemma {:induction false} LastSlot(base: nat, size: nat, n: nat)
    requires n >= 1
    ensures Slots(base, size, n)[n - 1] == base + size * (n - 1)
    decreases n
  {
    if n > 1 {
      LastSlot(base + size, size, n - 1);
      assert size * (n - 1) == size * (n - 2) + size;
    }
  }

  /** Where slot i of a run is, and how many there are. */
  lemma SlotAt(r: SlotRun, i: nat)
    requires IsSlotRun(r) && i < BIN_ELEMENTS[r.bin]
    ensures |SlotsOf(r)| == BIN_ELEMENTS[r.bin] && SlotsOf(r)[i] == r.base + i * BIN_DATA_SIZE[r.bin]
  {
    SlotsAt(r.base, BIN_DATA_SIZE[r.bin], BIN_ELEMENTS[r.bin], i);
  }

  lemma {:induction false} SlotsAt(base: nat, size: nat, n: nat, i: nat)
    requires i < n
    ensures Slots(base, size, n)[i] == base + i * size
    decreases i
  {
    if i > 0 {
      SlotsAt(base + size, size, n - 1, i - 1);
      assert i * size == (i - 1) * size + size;
    }
  }

  lemma SlotsFit(base: nat, size: nat, n: nat, len: nat, i: nat)
    requires i < n && n * size <= len
    ensures base <= Slots(base, size, n)[i] <= base + len - size
  {
    LastSlot(base, size, n);
    assert size * (n - 1) + size == n * size;
    if i < n - 1 { SlotsIncrease(base, size, n, i, n - 1); }
    if i > 0 { SlotsIncrease(base, size, n, 0, i); }
  }

  /** Slot i lies inside its run. */
  lemma SlotInside(r: SlotRun, i: nat)
    requires IsSlotRun(r) && i < BIN_ELEMENTS[r.bin]
    ensures r.base <= SlotsOf(r)[i] && SlotsOf(r)[i] + BIN_DATA_SIZE[r.bin] <= End(r)
  {
    TableFillsPages(r.bin);
    SlotsFit(r.base, BIN_DATA_SIZE[r.bin], BIN_ELEMENTS[r.bin], BIN_PAGES[r.bin] * PAGE_SIZE, i);
  }

  lemma SlotsApart(r: SlotRun, i: nat, j: nat)
    requires IsSlotRun(r) && i < j < BIN_ELEMENTS[r.bin]
    ensures SlotsOf(r)[i] + BIN_DATA_SIZE[r.bin] <= SlotsOf(r)[j]
  {
    SlotsIncrease(r.base, BIN_DATA_SIZE[r.bin], BIN_ELEMENTS[r.bin], i, j);
  }

  /** Address a is a slot of run r. */
  ghost predicate InRun(a: nat, r: SlotRun) {
    a in SlotsOf(r)
  }

  lemma InRunBounds(a: nat, r: SlotRun)
    requires IsSlotRun(r) && InRun(a, r)
    ensures r.base <= a && a + BIN_DATA_SIZE[r.bin] <= End(r)
    ensures BIN_DATA_SIZE[r.bin] >= 8
  {
    var i :| 0 <= i < |SlotsOf(r)| && SlotsOf(r)[i] == a;
    SlotInside(r, i);
    TableFillsPages(r.bin);
  }

  lemma {:induction false} BinSlotsMember(runs: seq<SlotRun>, bin: nat, a: nat)
    ensures a in BinSlots(runs, bin) <==> exists r :: r in runs && r.bin == bin && InRun(a, r)
  {
    if runs != [] {
      var front, last := runs[..|runs| - 1], runs[|runs| - 1];
      BinSlotsMember(front, bin, a);
      assert runs == front + [last];
    }
  }

  lemma SlotsDistinct(r: SlotRun)
    requires IsSlotRun(r)
    ensures Distinct(SlotsOf(r))
  {
    forall i, j | 0 <= i < j < |SlotsOf(r)| ensures SlotsOf(r)[i] != SlotsOf(r)[j] {
      SlotsApart(r, i, j);
      TableFillsPages(r.bin);
    }
  }

  /** No slot occurs twice among disjoint runs. */
  lemma {:induction false} BinSlotsDistinct(runs: seq<SlotRun>, bin: nat)
    requires Disjoint(runs)
    ensures Distinct(BinSlots(runs, bin))
  {
    if runs != [] {
      var front, last := runs[..|runs| - 1], runs[|runs| - 1];
      BinSlotsDistinct(front, bin);
      SlotsDistinct(last);
      forall a | a in BinSlots(front, bin) ensures a !in SlotsOf(last) {
        BinSlotsMember(front, bin, a);
        var r :| r in front && r.bin == bin && InRun(a, r);
        InRunBounds(a, r);
        if InRun(a, last) { InRunBounds(a, last); }
      }
      DistinctConcat(BinSlots(front, bin), if last.bin == bin then SlotsOf(last) else []);
    }
  }

  lemma DistinctConcat(s: seq<nat>, t: seq<nat>)
    requires Distinct(s) && Distinct(t) && forall a | a in s :: a !in t
    ensures Distinct(s + t)
  {
    var r := s + t;
    forall i, j | 0 <= i < j < |r| ensures r[i] != r[j] {
      if i < |s| <= j { assert s[i] in s && t[j - |s|] in t; }
    }
  }

  lemma RunsApart(runs: seq<SlotRun>, r: SlotRun, r': SlotRun)
    requires Disjoint(runs) && r in runs && r' in runs
    ensures IsSlotRun(r) && IsSlotRun(r') && (r == r' || End(r) <= r'.base || End(r') <= r.base)
  {
    var i :| 0 <= i < |runs| && runs[i] == r;
    var j :| 0 <= j < |runs| && runs[j] == r';
    assert i < j ==> End(runs[i]) <= runs[j].base || End(runs[j]) <= runs[i].base;
    assert j < i ==> End(runs[j]) <= runs[i].base || End(runs[i]) <= runs[j].base;
  }

  /** Two different slots, of the same or of different bins, share no byte. */
  lemma SlotsShareNothing(runs: seq<SlotRun>, bin: nat, a: nat, bin': nat, a': nat)
    requires Disjoint(runs) && bin < BINS && bin' < BINS
    requires a in BinSlots(runs, bin) && a' in BinSlots(runs, bin') && (bin != bin' || a != a')
    ensures |BIN_DATA_SIZE| == BINS
    ensures a + BIN_DATA_SIZE[bin] <= a' || a' + BIN_DATA_SIZE[bin'] <= a
  {
    BinSlotsMember(runs, bin, a);
    BinSlotsMember(runs, bin', a');
    var r :| r in runs && r.bin == bin && InRun(a, r);
    var r' :| r' in runs && r'.bin == bin' && InRun(a', r');
    InRunBounds(a, r);
    InRunBounds(a', r');
    RunsApart(runs, r, r');
    if r == r' { SameRunApart(r, a, a'); }
  }

  lemma SameRunApart(r: SlotRun, a: nat, a': nat)
    requires IsSlotRun(r) && InRun(a, r) && InRun(a', r) && a != a'
    ensures a + BIN_DATA_SIZE[r.bin] <= a' || a' + BIN_DATA_SIZE[r.bin] <= a
  {
    var i :| 0 <= i < |SlotsOf(r)| && SlotsOf(r)[i] == a;
    var j :| 0 <= j < |SlotsOf(r)| && SlotsOf(r)[j] == a';
    if i < j { SlotsApart(r, i, j); } else { SlotsApart(r, j, i); }
  }
}

module SmallSlots {
  import opened HeapSpec
  import opened PageHeap
  import opened PageMap
  import ChunkPages
  import opened Sequences
  import opened SizeClasses
  import opened SlotRuns

  /** How many bytes a next_free_slot word has. */
  const WORD := 8

  /** list is threaded through memory from head on, and ends with NULL. */
  ghost predicate Chain(next: map<nat, nat>, head: nat, list: seq<nat>) {
    && head == (if list == [] then 0 else list[0])
    && (forall i | 0 <= i < |list| :: list[i] > 0 && list[i] in next)
    && forall i {:trigger next[list[i]]} | 0 <= i < |list| ::
         next[list[i]] == if i + 1 < |list| then list[i + 1] else 0
  }

  ghost predicate IsBin(next: map<nat, nat>, head: nat, slots: seq<nat>, used: set<nat>, free: seq<nat>) {
    Chain(next, head, free) && Accounts(slots, used, free)
  }

  /** Writes outside a bin's slots, and writes to slots that are handed out, leave the bin as it is. */
  lemma BinKept(next: map<nat, nat>, next': map<nat, nat>, head: nat, slots: seq<nat>, used: set<nat>, free: seq<nat>)
    requires IsBin(next, head, slots, used, free)
    requires forall a | a in next && a in slots && a !in used :: a in next' && next'[a] == next[a]
    ensures IsBin(next', head, slots, used, free)
  {
    forall i | 0 <= i < |free|
      ensures free[i] in next' && next'[free[i]] == if i + 1 < |free| then free[i + 1] else 0
    {
      assert free[i] in free && next[free[i]] == next'[free[i]];
    }
  }

  /** Every slot but the first points to the one after it. */
  ghost predicate IsThreaded(next: map<nat, nat>, slots: seq<nat>) {
    && (forall i | 1 <= i < |slots| :: slots[i] in next)
    && forall i {:trigger next[slots[i]]} | 1 <= i < |slots| ::
         next[slots[i]] == if i + 1 < |slots| then slots[i + 1] else 0
  }

  /** The slots are those handed out and those in the free list, and none is both or twice. */
  ghost predicate Accounts(slots: seq<nat>, used: set<nat>, free: seq<nat>) {
    && (forall a | a in used :: a in slots)
    && (forall a | a in free :: a in slots && a !in used)
    && (forall a | a in slots :: a in used || a in free)
    && Distinct(free)
  }

  lemma PopAccounts(slots: seq<nat>, used: set<nat>, free: seq<nat>)
    requires Accounts(slots, used, free) && free != []
    ensures free[0] !in used && free[0] in slots && Accounts(slots, used + {free[0]}, free[1..])
  {
    assert free == [free[0]] + free[1..];
    assert free[0] !in free[1..];
  }

  lemma GrowAccounts(slots: seq<nat>, used: set<nat>, new': seq<nat>)
    requires Accounts(slots, used, []) && Distinct(new') && new' != []
    requires forall a | a in slots :: a !in new'
    ensures new'[0] !in used && Accounts(slots + new', used + {new'[0]}, new'[1..])
  {
    assert new' == [new'[0]] + new'[1..];
    assert new'[0] !in new'[1..];
    assert new'[0] in new';
  }

  // ----- runs of slots and grants of pages

  /** The run r is what page allocation granted with reply g. */
  ghost predicate RunOf(r: SlotRun, g: Reply) {
    && r.bin < BINS && g.Granted? && g.count == BIN_PAGES[r.bin]
    && IsPlace(g.address) && 1 <= g.page && g.page + g.count <= PAGES
    && r.base == Pointer(g)
  }

  /** Grants that share no page are runs that share no byte. */
  lemma RunsDisjoint(runs: seq<SlotRun>, grants: seq<Reply>)
    requires |runs| == |grants| && forall i | 0 <= i < |runs| :: RunOf(runs[i], grants[i])
    requires forall i, j | 0 <= i < j < |grants| :: Apart(grants[i], grants[j])
    ensures Disjoint(runs)
  {
    forall i, j | 0 <= i < j < |runs|
      ensures IsSlotRun(runs[i]) && IsSlotRun(runs[j])
      ensures End(runs[i]) <= runs[j].base || End(runs[j]) <= runs[i].base
    {
      RunPairDisjoint(runs[i], grants[i], runs[j], grants[j]);
    }
  }

  lemma RunPairDisjoint(r: SlotRun, g: Reply, r': SlotRun, g': Reply)
    requires RunOf(r, g) && RunOf(r', g') && Apart(g, g')
    ensures End(r) <= r'.base || End(r') <= r.base
  {
    assert g.address < g'.address ==> g.address + CHUNK_SIZE <= g'.address;
    assert g'.address < g.address ==> g'.address + CHUNK_SIZE <= g.address;
  }

  /** Each run consists of pages that were granted to it alone. */
  ghost predicate Backed(s: State, runs: seq<SlotRun>, grants: seq<Reply>) {
    && |runs| == |grants|
    && (forall i | 0 <= i < |runs| :: RunOf(runs[i], grants[i]) && Holds(s, grants[i]))
    && (forall i, j | 0 <= i < j < |grants| :: Apart(grants[i], grants[j]))
  }

  /** Page allocation leaves the runs alone and grants pages apart from them. */
  lemma ServesBacked(s: State, k: nat, osGives: bool, reply: Reply, s': State, runs: seq<SlotRun>, grants: seq<Reply>)
    requires Inv(s) && 1 <= k < PAGES && Serves(s, k, osGives, reply, s') && Backed(s, runs, grants)
    ensures Backed(s', runs, grants) && Holds(s', reply)
    ensures forall i | 0 <= i < |grants| :: Apart(grants[i], reply)
  {
    ServesApart(s, k, osGives, reply, s', Refused);
    forall i | 0 <= i < |grants| ensures Holds(s', grants[i]) && Apart(grants[i], reply) {
      ServesApart(s, k, osGives, reply, s', grants[i]);
    }
  }

  /** A new run with its page map entries. */
  lemma NotedBacked(s: State, bin: nat, reply: Reply, runs: seq<SlotRun>, r: SlotRun, grants: seq<Reply>)
    requires Backed(s, runs, grants) && Holds(s, reply) && RunOf(r, reply)
    requires forall i | 0 <= i < |grants| :: Apart(grants[i], reply)
    ensures Backed(Noted(s, reply.address, reply.page, bin, reply.count), runs + [r], grants + [reply])
  {
    var gs := grants + [reply];
    forall i | 0 <= i < |gs| ensures Holds(Noted(s, reply.address, reply.page, bin, reply.count), gs[i]) {
      NotedHolds(s, reply.address, reply.page, bin, reply.count, gs[i]);
    }
  }

  /** A grant of an allocation is in place, in a chunk of the ring. */
  lemma GrantInPlace(heap: Heap, reply: Reply) returns (chunk: ChunkPages.Chunk)
    requires heap.Valid() && Holds(heap.View(), reply) && reply.Granted?
    ensures IsPlace(reply.address) && 1 <= reply.page && reply.page + reply.count <= PAGES
    ensures chunk in heap.ring && chunk.address == reply.address && Owns(heap.owner, heap.memory, chunk)
  {
    heap.ViewInv();
    var e :| e in heap.View().ring && HoldsIn(e, reply);
    var i :| 0 <= i < |heap.ring| && heap.View().ring[i] == e;
    chunk := heap.ring[i];
    assert chunk in heap.ring;
  }

  lemma BackedOutside(s: State, runs: seq<SlotRun>, r: SlotRun, grants: seq<Reply>)
    requires Backed(s, runs + [r], grants)
    ensures IsSlotRun(r) && Outside(runs, r)
  {
    RunsDisjoint(runs + [r], grants);
    NewRunOutside(runs, r);
  }

  // ----- small allocation, on values

  /** The heap, the runs cut into slots, and of every bin the free list and the slots handed out. */
  datatype SmallState = SmallState(heap: State, runs: seq<SlotRun>, free: seq<seq<nat>>, used: seq<set<nat>>)

  ghost predicate IsSmall(s: SmallState, bin: nat) {
    bin < |s.free| == |s.used| == BINS
  }

  /** zend_mm_alloc_small: the first free slot of the bin; when there is none, a new run gives
      its first slot, and its other slots become the bin's free list. */
  ghost predicate Allocates(s: SmallState, bin: nat, osGives: bool, ptr: nat, s': SmallState)
    requires IsSmall(s, bin)
  {
    if s.free[bin] != [] then
      && ptr == s.free[bin][0]
      && s' == s.(free := s.free[bin := s.free[bin][1..]], used := s.used[bin := s.used[bin] + {ptr}])
    else
      exists reply :: AllocatesSlow(s, bin, osGives, reply, s') && ptr == Pointer(reply)
  }

  ghost predicate AllocatesSlow(s: SmallState, bin: nat, osGives: bool, reply: Reply, s': SmallState)
    requires IsSmall(s, bin)
  {
    && ServesSmall(s.heap, bin, BIN_PAGES[bin], osGives, reply, s'.heap)
    && match reply
       case Refused => s' == s.(heap := s'.heap)
       case Granted(_, _, _) =>
         var r := SlotRun(Pointer(reply), bin);
         && SlotsOf(r) != [] && SlotsOf(r)[0] == r.base
         && s' == s.(heap := s'.heap, runs := s.runs + [r],
                     free := s.free[bin := SlotsOf(r)[1..]], used := s.used[bin := s.used[bin] + {r.base}])
  }

  lemma GrantAllocates(s: SmallState, bin: nat, osGives: bool, reply: Reply, s': SmallState)
    requires IsSmall(s, bin) && ServesSmall(s.heap, bin, BIN_PAGES[bin], osGives, reply, s'.heap) && reply.Granted?
    requires var r := SlotRun(Pointer(reply), bin);
             && SlotsOf(r) != [] && SlotsOf(r)[0] == r.base
             && s'.runs == s.runs + [r] && s'.free == s.free[bin := SlotsOf(r)[1..]]
             && s'.used == s.used[bin := s.used[bin] + {r.base}]
    ensures AllocatesSlow(s, bin, osGives, reply, s')
  {
  }

  /** The fast path takes the first slot of the list and nothing else; no allocation touches another bin. */
  lemma FastPlain(s: SmallState, bin: nat, osGives: bool, ptr: nat, s': SmallState)
    requires IsSmall(s, bin) && Allocates(s, bin, osGives, ptr, s')
    ensures s.free[bin] != [] ==>
              && s.free[bin] == [ptr] + s'.free[bin] && s'.used[bin] == s.used[bin] + {ptr}
              && s'.heap == s.heap && s'.runs == s.runs
    ensures |s'.free| == |s'.used| == BINS
    ensures forall b | 0 <= b < BINS && b != bin :: s'.free[b] == s.free[b] && s'.used[b] == s.used[b]
  {
  }

  /** The slow path asks for the pages of the bin.  With none it changes nothing; otherwise it hands out
      the first of the run's slots, lists the others in address order, and makes the page map say of
      every page of the run which bin it belongs to and how far it is from the first. */
  lemma SlowPlain(s: SmallState, bin: nat, osGives: bool, reply: Reply, s': SmallState) returns (mid: State, home: nat)
    requires IsSmall(s, bin) && Inv(s.heap) && AllocatesSlow(s, bin, osGives, reply, s')
    ensures Serves(s.heap, BIN_PAGES[bin], osGives, reply, mid)
    ensures reply.Refused? ==> s' == s
    ensures reply.Granted? ==>
              var ptr := reply.address + reply.page * 4096;
              && reply.count == BIN_PAGES[bin] && s'.runs == s.runs + [SlotRun(ptr, bin)]
              && s'.used[bin] == s.used[bin] + {ptr}
              && |s'.free[bin]| == BIN_ELEMENTS[bin] - 1
              && (forall i | 0 <= i < |s'.free[bin]| :: s'.free[bin][i] == ptr + (i + 1) * BIN_DATA_SIZE[bin])
    ensures reply.Granted? ==>
              && home < |s'.heap.ring| == |mid.ring| && InRunMap(s'.heap.ring[home], reply, bin)
              && s'.heap.ring[home].pages == mid.ring[home].pages
              && forall i | 0 <= i < |mid.ring| && i != home :: s'.heap.ring[i] == mid.ring[i]
  {
    home := 0;
    mid :| Serves(s.heap, BIN_PAGES[bin], osGives, reply, mid) &&
           s'.heap == if reply.Granted? then Noted(mid, reply.address, reply.page, bin, BIN_PAGES[bin]) else mid;
    TableFillsPages(bin);
    if reply.Granted? {
      home := NotedHome(s.heap, bin, osGives, reply, mid);
      var r := SlotRun(Pointer(reply), bin);
      SlotAt(r, 0);
      forall i | 0 <= i < |s'.free[bin]| ensures s'.free[bin][i] == r.base + (i + 1) * BIN_DATA_SIZE[bin] {
        SlotAt(r, i + 1);
      }
    }
  }

  ghost predicate InRunMap(e: Entry, reply: Reply, bin: nat)
    requires reply.Granted?
  {
    && e.address == reply.address && |e.marks| == PAGES
    && reply.page < PAGES && reply.page + reply.count <= PAGES
    && e.marks[reply.page] == ChunkPages.SRun(bin)
    && forall p | reply.page < p < reply.page + reply.count :: e.marks[p] == ChunkPages.NRun(bin, p - reply.page)
  }

  /** The chunk that served, and what the page map of the heap says afterwards. */
  lemma NotedHome(s: State, bin: nat, osGives: bool, reply: Reply, mid: State) returns (home: nat)
    requires Inv(s) && bin < BINS && Serves(s, BIN_PAGES[bin], osGives, reply, mid) && reply.Granted?
    ensures var noted := Noted(mid, reply.address, reply.page, bin, BIN_PAGES[bin]);
            && reply.page >= 1 && home < |mid.ring| == |noted.ring| && InRunMap(noted.ring[home], reply, bin)
            && noted.ring[home].pages == mid.ring[home].pages
            && forall i | 0 <= i < |mid.ring| && i != home :: noted.ring[i] == mid.ring[i]
  {
    TableFillsPages(bin);
    home := ServedHome(s, BIN_PAGES[bin], osGives, reply, mid);
    NotedPlain(mid, reply.address, reply.page, bin, BIN_PAGES[bin], home);
    OthersElsewhere(mid, home);
  }

  lemma ServedHome(s: State, k: nat, osGives: bool, reply: Reply, s': State) returns (home: nat)
    requires Inv(s) && 1 <= k < PAGES && Serves(s, k, osGives, reply, s') && reply.Granted?
    ensures Inv(s') && reply.count == k && home < |s'.ring| && HoldsIn(s'.ring[home], reply)
  {
    ServesKeepsInv(s, k, osGives, reply, s');
    ServesApart(s, k, osGives, reply, s', Refused);
    var e :| e in s'.ring && HoldsIn(e, reply);
    home :| home < |s'.ring| && s'.ring[home] == e;
  }

  lemma OthersElsewhere(s: State, home: nat)
    requires Inv(s) && home < |s.ring|
    ensures forall i | 0 <= i < |s.ring| && i != home :: s.ring[i].address != s.ring[home].address
  {
    assert forall i | 0 <= i < |s.ring| :: Addresses(s)[i] == s.ring[i].address;
  }

  lemma SlowAllocates(s: SmallState, bin: nat, osGives: bool, reply: Reply, s': SmallState)
    requires IsSmall(s, bin) && s.free[bin] == [] && AllocatesSlow(s, bin, osGives, reply, s')
    ensures Allocates(s, bin, osGives, Pointer(reply), s')
  {
  }

  /** Only a refusal is NULL. */
  lemma PointerIsNull(heap: Heap, reply: Reply)
    requires heap.Valid() && Holds(heap.View(), reply) && Pointer(reply) == 0
    ensures reply == Refused
  {
    if reply.Granted? { var chunk := GrantInPlace(heap, reply); }
  }

  lemma ThreadEnd(next: map<nat, nat>, slots: seq<nat>)
    requires |slots| >= 2 && forall i | 1 <= i < |slots| - 1 :: slots[i] != slots[|slots| - 1]
    requires forall i | 1 <= i < |slots| - 1 :: slots[i] in next && next[slots[i]] == slots[i + 1]
    ensures IsThreaded(next[slots[|slots| - 1] := 0], slots)
  {
  }

  class SmallHeap {
    const heap: Heap
    const freeSlot: array<nat>
    var next: map<nat, nat>          // the next_free_slot word at an address
    ghost var grants: seq<Reply>     // what page allocation gave for small runs
    ghost var runs: seq<SlotRun>
    ghost var free: seq<seq<nat>>
    ghost var used: seq<set<nat>>    // the slots handed out, bin by bin

    ghost predicate Valid()
      reads this, freeSlot, heap, heap.ring, heap.cached, heap.owner.Keys
    {
      heap.Valid() && Unowned() && Backed(heap.View(), runs, grants) && Bins()
    }

    /** The heap does not own the parts of this object. */
    ghost predicate Unowned()
      reads heap
    {
      freeSlot as object !in heap.owner.Keys && this as object !in heap.owner.Keys
    }

    ghost function View(): SmallState
      reads this, heap, heap.ring
    {
      SmallState(heap.View(), runs, free, used)
    }

    ghost predicate Bins()
      reads this`next, this`runs, this`free, this`used, freeSlot
    {
      && freeSlot.Length == |free| == |used| == BINS
      && forall b | 0 <= b < BINS :: BinValid(b)
    }

    ghost predicate BinValid(b: nat)
      requires b < BINS && freeSlot.Length == |free| == |used| == BINS
      reads this`next, this`runs, this`free, this`used, freeSlot
    {
      IsBin(next, freeSlot[b], BinSlots(runs, b), used[b], free[b])
    }

    constructor (heap: Heap)
      requires heap.Valid()
      ensures Valid() && this.heap == heap && runs == [] && fresh(freeSlot)
      ensures forall b | 0 <= b < BINS :: used[b] == {} && free[b] == []
    {
      this.heap := heap;
      freeSlot := new nat[BINS](_ => 0);
      next := map[];
      grants, runs, free, used := [], [], seq(BINS, _ => []), seq(BINS, _ => {});
    }

    /** The do-while loop of zend_mm_alloc_small_slow: thread elements 1 to the last. */
    method Thread(base: nat, size: nat, n: nat, ghost slots: seq<nat>)
      requires n >= 3 && size > 0 && slots == Slots(base, size, n)
      modifies this`next
      ensures IsThreaded(next, slots)
      ensures forall a | a in old(next) && a !in slots :: a in next && next[a] == old(next)[a]
    {
      var end := base + size * (n - 1);
      LastSlot(base, size, n);
      SlotStep(base, size, n, 0);
      var p := base + size;
      ghost var k: nat := 1;
      while true
        invariant 1 <= k < n - 1 && p == slots[k]
        invariant forall i | 1 <= i < k :: slots[i] in next && next[slots[i]] == slots[i + 1]
        invariant forall a | a in old(next) && a !in slots :: a in next && next[a] == old(next)[a]
        decreases n - k
      {
        forall i | 1 <= i < k ensures slots[i] != slots[k] { SlotsIncrease(base, size, n, i, k); }
        SlotStep(base, size, n, k);
        next := next[p := p + size];
        k := k + 1;
        p := p + size;
        if p == end { break; }
        assert k != n - 1;
      }
      forall i | 1 <= i < k ensures slots[i] != slots[k] { SlotsIncrease(base, size, n, i, k); }
      if k < n - 1 { SlotsIncrease(base, size, n, k, n - 1); }
      assert k == n - 1 && p == slots[k];
      ThreadEnd(next, slots);
      next := next[p := 0];
    }

    /** Pages for a run, apart from those of all runs so far. */
    method GetPages(bin: nat, osGives: bool) returns (base: nat, ghost reply: Reply)
      requires heap.Valid() && Unowned() && Backed(heap.View(), runs, grants) && bin < BINS
      modifies heap, heap.ring, heap.cached, heap.owner.Keys
      ensures heap.Valid() && Unowned() && base == Pointer(reply)
      ensures Serves(old(heap.View()), BIN_PAGES[bin], osGives, reply, heap.View())
      ensures base == 0 <==> old(heap.MustRefuse(BIN_PAGES[bin], osGives))
      ensures Holds(heap.View(), reply) && Backed(heap.View(), runs, grants)
      ensures forall i | 0 <= i < |grants| :: Apart(grants[i], reply)
      ensures heap.OnlyOwn()
    {
      TableFillsPages(bin);
      heap.ViewInv();
      ghost var s := heap.View();
      base, reply := heap.AllocPages(BIN_PAGES[bin], osGives);
      ServesBacked(s, BIN_PAGES[bin], osGives, reply, heap.View(), runs, grants);
    }

    /** The page map entries of a new run. */
    method NoteRun(bin: nat, base: nat, ghost reply: Reply, ghost noted: ChunkPages.Chunk)
      requires heap.Valid() && Unowned() && Backed(heap.View(), runs, grants) && bin < BINS
      requires reply.Granted? && reply.count == BIN_PAGES[bin] && base == Pointer(reply) && Holds(heap.View(), reply)
      requires forall i | 0 <= i < |grants| :: Apart(grants[i], reply)
      requires noted in heap.ring && noted.address == reply.address
      modifies this`grants, noted`marks, noted.info
      ensures heap.Valid() && Unowned() && grants == old(grants) + [reply]
      ensures heap.View() == Noted(old(heap.View()), reply.address, reply.page, bin, reply.count)
      ensures Backed(heap.View(), runs + [SlotRun(base, bin)], grants)
    {
      ghost var chunk := GrantInPlace(heap, reply);
      assert Owns(heap.owner, heap.memory, noted);
      NotedBacked(heap.View(), bin, reply, runs, SlotRun(base, bin), grants);
      heap.NoteSmall(base, bin, BIN_PAGES[bin], reply.page, noted);
      grants := grants + [reply];
    }

    /** The first part of zend_mm_alloc_small_slow: pages for a run, and their page map entries. */
    method GetRun(bin: nat, osGives: bool) returns (base: nat, ghost reply: Reply)
      requires heap.Valid() && Unowned() && Backed(heap.View(), runs, grants) && bin < BINS
      modifies this`grants, heap, heap.ring, heap.cached, heap.owner.Keys
      ensures heap.Valid() && Unowned() && base == Pointer(reply)
      ensures ServesSmall(old(heap.View()), bin, BIN_PAGES[bin], osGives, reply, heap.View())
      ensures heap.OnlyOwn() && (base == 0 <==> reply == Refused)
      ensures base == 0 <==> old(heap.MustRefuse(BIN_PAGES[bin], osGives))
      ensures if base == 0 then grants == old(grants) && Backed(heap.View(), runs, grants)
              else grants == old(grants) + [reply] && Backed(heap.View(), runs + [SlotRun(base, bin)], grants)
    {
      base, reply := GetPages(bin, osGives);
      if base != 0 {
        ghost var noted := GrantInPlace(heap, reply);
        NoteRun(bin, base, reply, noted);
      } else {
        PointerIsNull(heap, reply);
      }
    }

    /** The second part: the run becomes slots, of which the first is handed out. */
    method CutRun(bin: nat, base: nat)
      requires Bins() && bin < BINS && free[bin] == [] && base != 0 && Outside(runs, SlotRun(base, bin))
      modifies this`next, this`runs, this`free, this`used, freeSlot
      ensures Bins() && runs == old(runs) + [SlotRun(base, bin)]
      ensures SlotsOf(SlotRun(base, bin)) != [] && SlotsOf(SlotRun(base, bin))[0] == base && base !in old(used)[bin]
      ensures free == old(free)[bin := SlotsOf(SlotRun(base, bin))[1..]]
      ensures used == old(used)[bin := old(used)[bin] + {base}]
    {
      ghost var r := SlotRun(base, bin);
      TableFillsPages(bin);
      assert BinValid(bin);
      freeSlot[bin] := base + BIN_DATA_SIZE[bin];
      Thread(base, BIN_DATA_SIZE[bin], BIN_ELEMENTS[bin], SlotsOf(r));
      CutBin(runs, r, next, used[bin]);
      runs := runs + [r];
      free := free[bin := SlotsOf(r)[1..]];
      used := used[bin := used[bin] + {base}];
      OtherBinsKept(r);
    }

    /** The same, for pages that were granted for the run. */
    method CutGranted(bin: nat, base: nat)
      requires heap.Valid() && Unowned() && Bins() && bin < BINS && free[bin] == [] && base != 0
      requires Backed(heap.View(), runs + [SlotRun(base, bin)], grants)
      modifies this`next, this`runs, this`free, this`used, freeSlot
      ensures Valid() && heap.View() == old(heap.View()) && runs == old(runs) + [SlotRun(base, bin)]
      ensures SlotsOf(SlotRun(base, bin)) != [] && SlotsOf(SlotRun(base, bin))[0] == base && base !in old(used)[bin]
      ensures free == old(free)[bin := SlotsOf(SlotRun(base, bin))[1..]]
      ensures used == old(used)[bin := old(used)[bin] + {base}]
    {
      BackedOutside(heap.View(), runs, SlotRun(base, bin), grants);
      CutRun(bin, base);
    }

    /** Threading a new run leaves the other bins as they are. */
    twostate lemma OtherBinsKept(r: SlotRun)
      requires old(Bins()) && IsSlotRun(r) && Outside(old(runs), r) && runs == old(runs) + [r]
      requires |free| == |used| == BINS && forall b | 0 <= b < BINS && b != r.bin ::
                 free[b] == old(free[b]) && used[b] == old(used[b]) && freeSlot[b] == old(freeSlot[b])
      requires forall a | a in old(next) && a !in SlotsOf(r) :: a in next && next[a] == old(next[a])
      ensures forall b | 0 <= b < BINS && b != r.bin :: BinValid(b)
    {
      NewRunSlots(old(runs), r);
      forall b | 0 <= b < BINS && b != r.bin ensures BinValid(b) {
        assert old(BinValid(b));
        BinKept(old(next), next, freeSlot[b], BinSlots(runs, b), used[b], free[b]);
      }
    }

    /** zend_mm_alloc_small_slow */
    method AllocSmallSlow(bin: nat, osGives: bool) returns (ptr: nat, ghost reply: Reply)
      requires Valid() && bin < BINS && free[bin] == []
      modifies this, freeSlot, heap, heap.ring, heap.cached, heap.owner.Keys
      ensures Valid() && heap.OnlyOwn()
      ensures AllocatesSlow(old(View()), bin, osGives, reply, View()) && ptr == Pointer(reply)
      ensures Allocates(old(View()), bin, osGives, ptr, View())
      ensures ptr == 0 <==> old(heap.MustRefuse(BIN_PAGES[bin], osGives))
      ensures used == if ptr == 0 then old(used) else old(used)[bin := old(used)[bin] + {ptr}]
      ensures ptr != 0 ==> ptr !in old(used)[bin]
    {
      ptr, reply := GetRun(bin, osGives);
      if ptr != 0 {
        CutGranted(bin, ptr);
        GrantAllocates(old(View()), bin, osGives, reply, View());
      }
      SlowAllocates(old(View()), bin, osGives, reply, View());
    }

    /** zend_mm_alloc_small: a slot that nobody has, or NULL. */
    method AllocSmall(bin: nat, osGives: bool) returns (ptr: nat)
      requires Valid() && bin < BINS
      modifies this, freeSlot, heap, heap.ring, heap.cached, heap.owner.Keys
      ensures Valid() && heap.OnlyOwn()
      ensures Allocates(old(View()), bin, osGives, ptr, View())
      ensures ptr == 0 <==> old(free[bin] == [] && heap.MustRefuse(BIN_PAGES[bin], osGives))
      ensures used == if ptr == 0 then old(used) else old(used)[bin := old(used)[bin] + {ptr}]
      ensures ptr != 0 ==> ptr !in old(used)[bin]
    {
      assert BinValid(bin);
      if freeSlot[bin] != 0 {
        ptr := AllocSmallFast(bin, osGives);
      } else {
        ghost var reply;
        ptr, reply := AllocSmallSlow(bin, osGives);
      }
    }

    /** The fast path. */
    method AllocSmallFast(bin: nat, ghost osGives: bool) returns (ptr: nat)
      requires Valid() && bin < BINS && freeSlot[bin] != 0
      modifies this`free, this`used, freeSlot
      ensures Valid() && heap.View() == old(heap.View()) && old(free)[bin] != []
      ensures Allocates(old(View()), bin, osGives, ptr, View())
      ensures ptr != 0 && ptr !in old(used)[bin] && used == old(used)[bin := old(used)[bin] + {ptr}]
    {
      ptr := Pop(bin);
    }

    /** The first slot of the bin's list. */
    method Pop(bin: nat) returns (ptr: nat)
      requires Bins() && bin < BINS && freeSlot[bin] != 0
      modifies this`free, this`used, freeSlot
      ensures Bins() && old(free)[bin] != [] && ptr == old(free)[bin][0] && ptr != 0
      ensures ptr !in old(used)[bin] && ptr in BinSlots(runs, bin)
      ensures free == old(free)[bin := old(free)[bin][1..]]
      ensures used == old(used)[bin := old(used)[bin] + {ptr}]
    {
      assert BinValid(bin);
      PopAccounts(BinSlots(runs, bin), used[bin], free[bin]);
      ptr := freeSlot[bin];
      freeSlot[bin] := next[ptr];
      free := free[bin := free[bin][1..]];
      used := used[bin := used[bin] + {ptr}];
      forall b | 0 <= b < BINS && b != bin ensures BinValid(b) { assert old(BinValid(b)); }
    }

    /** The user of a slot writes a byte inside it, which changes every word that overlaps it. */
    method UserWrites(bin: nat, a: nat, offset: nat, words: map<nat, nat>)
      requires Valid() && bin < BINS && a in used[bin] && offset < BIN_DATA_SIZE[bin]
      requires forall w | w in words :: w <= a + offset < w + WORD
      modifies this`next
      ensures Valid() && next == old(next) + words
    {
      next := next + words;
      RunsDisjoint(runs, grants);
      assert old(BinValid(bin));
      forall b | 0 <= b < BINS ensures BinValid(b) {
        assert old(BinValid(b));
        forall s | s in BinSlots(runs, b) && s !in used[b] ensures s !in words {
          OutsideOtherSlots(runs, bin, a, offset, b, s);
        }
        BinKept(old(next), next, freeSlot[b], BinSlots(runs, b), used[b], free[b]);
      }
    }

    /** Two slots that are handed out share no byte, and each lies in a run of its bin. */
    lemma UsedApart(bin: nat, a: nat, bin': nat, a': nat)
      requires Valid() && bin < BINS && bin' < BINS && a in used[bin] && a' in used[bin']
      ensures |BIN_DATA_SIZE| == BINS
      ensures bin != bin' || a != a' ==> a + BIN_DATA_SIZE[bin] <= a' || a' + BIN_DATA_SIZE[bin'] <= a
      ensures exists r :: r in runs && r.bin == bin && IsSlotRun(r) && r.base <= a && a + BIN_DATA_SIZE[bin] <= End(r)
    {
      RunsDisjoint(runs, grants);
      assert BinValid(bin) && BinValid(bin');
      if bin != bin' || a != a' { SlotsShareNothing(runs, bin, a, bin', a'); }
      BinSlotsMember(runs, bin, a);
      var r :| r in runs && r.bin == bin && InRun(a, r);
      RunsApart(runs, r, r);
      InRunBounds(a, r);
    }
  }

  // ----- runs of allocations

  datatype SmallRequest = SmallRequest(bin: nat, osGives: bool)

  ghost predicate IsSmallRun(states: seq<SmallState>, requests: seq<SmallRequest>, ptrs: seq<nat>) {
    && |states| == |requests| + 1 && |ptrs| == |requests|
    && forall i | 0 <= i < |requests| ::
         && IsSmall(states[i], requests[i].bin)
         && Allocates(states[i], requests[i].bin, requests[i].osGives, ptrs[i], states[i + 1])
  }

  /** The slots are handed out, and no slot twice. */
  ghost predicate HandedOut(ptrs: seq<nat>, requests: seq<SmallRequest>, used: seq<set<nat>>) {
    && |ptrs| <= |requests|
    && (forall i | 0 <= i < |ptrs| && ptrs[i] != 0 :: requests[i].bin < |used| && ptrs[i] in used[requests[i].bin])
    && forall i, j | 0 <= i < j < |ptrs| && ptrs[i] != 0 && ptrs[j] != 0 ::
         requests[i].bin != requests[j].bin || ptrs[i] != ptrs[j]
  }

  lemma HandOut(ptrs: seq<nat>, requests: seq<SmallRequest>, used: seq<set<nat>>, ptr: nat)
    requires HandedOut(ptrs, requests, used) && |ptrs| < |requests| && requests[|ptrs|].bin < |used|
    requires ptr != 0 ==> ptr !in used[requests[|ptrs|].bin]
    ensures var bin := requests[|ptrs|].bin;
            HandedOut(ptrs + [ptr], requests, if ptr == 0 then used else used[bin := used[bin] + {ptr}])
  {
  }

  lemma SmallRunSnoc(states: seq<SmallState>, requests: seq<SmallRequest>, ptrs: seq<nat>, n: nat, ptr: nat, s': SmallState)
    requires n < |requests| && IsSmallRun(states, requests[..n], ptrs) && IsSmall(states[n], requests[n].bin)
    requires Allocates(states[n], requests[n].bin, requests[n].osGives, ptr, s')
    ensures IsSmallRun(states + [s'], requests[..n + 1], ptrs + [ptr])
  {
  }

  /** Any run of small allocations, fast and slow and from any bins, follows the specification. */
  method AllocSlots(small: SmallHeap, requests: seq<SmallRequest>) returns (ptrs: seq<nat>, ghost states: seq<SmallState>)
    requires small.Valid() && forall i | 0 <= i < |requests| :: requests[i].bin < BINS
    modifies small, small.freeSlot, small.heap, small.heap.ring, small.heap.cached, small.heap.owner.Keys
    ensures small.Valid() && IsSmallRun(states, requests, ptrs)
    ensures states[0] == old(small.View()) && states[|requests|] == small.View()
    ensures HandedOut(ptrs, requests, small.used)
  {
    ptrs, states := [], [small.View()];
    ghost var heap := small.heap;
    for n := 0 to |requests|
      invariant small.Valid() && heap.OnlyOwn() && |ptrs| == n
      invariant IsSmallRun(states, requests[..n], ptrs) && states[0] == old(small.View()) && states[n] == small.View()
      invariant HandedOut(ptrs, requests, small.used)
    {
      assert forall i | 0 <= i < |heap.ring| ::
          heap.ring[i] in old(heap.ring) || heap.ring[i] in old(heap.cached) || fresh(heap.ring[i]);
      assert forall i | 0 <= i < |heap.cached| :: heap.cached[i] in old(heap.cached);
      ghost var used := small.used;
      var ptr := small.AllocSmall(requests[n].bin, requests[n].osGives);
      HandOut(ptrs, requests, used, ptr);
      SmallRunSnoc(states, requests, ptrs, n, ptr, small.View());
      ptrs, states := ptrs + [ptr], states + [small.View()];
    }
    assert requests[..|requests|] == requests;
  }

  /** So no byte is handed out twice. */
  method AllocSlotsApart(small: SmallHeap, requests: seq<SmallRequest>)
    returns (ptrs: seq<nat>, ghost states: seq<SmallState>)
    requires small.Valid() && forall i | 0 <= i < |requests| :: requests[i].bin < BINS
    modifies small, small.freeSlot, small.heap, small.heap.ring, small.heap.cached, small.heap.owner.Keys
    ensures small.Valid() && IsSmallRun(states, requests, ptrs)
    ensures states[0] == old(small.View()) && states[|requests|] == small.View()
    ensures forall i, j | 0 <= i < j < |requests| && ptrs[i] != 0 && ptrs[j] != 0 ::
              ptrs[i] + BIN_DATA_SIZE[requests[i].bin] <= ptrs[j] || ptrs[j] + BIN_DATA_SIZE[requests[j].bin] <= ptrs[i]
  {
    ptrs, states := AllocSlots(small, requests);
    forall i, j | 0 <= i < j < |requests| && ptrs[i] != 0 && ptrs[j] != 0
      ensures ptrs[i] + BIN_DATA_SIZE[requests[i].bin] <= ptrs[j] || ptrs[j] + BIN_DATA_SIZE[requests[j].bin] <= ptrs[i]
    {
      small.UsedApart(requests[i].bin, ptrs[i], requests[j].bin, ptrs[j]);
    }
  }

  /** No slot of r is a slot of one of the runs. */
  ghost predicate Outside(runs: seq<SlotRun>, r: SlotRun) {
    forall b, a | a in BinSlots(runs, b) :: a !in SlotsOf(r)
  }

  /** No slot of a new run is a slot of an earlier one. */
  lemma NewRunOutside(runs: seq<SlotRun>, r: SlotRun)
    requires Disjoint(runs + [r])
    ensures Disjoint(runs) && IsSlotRun(r) && Outside(runs, r)
  {
    var all := runs + [r];
    assert all[|runs|] == r && forall i | 0 <= i < |runs| :: all[i] == runs[i];
    forall b, a | a in BinSlots(runs, b) ensures a !in SlotsOf(r) {
      BinSlotsMember(runs, b, a);
      var q :| q in runs && q.bin == b && InRun(a, q);
      InRunBounds(a, q);
      if InRun(a, r) { InRunBounds(a, r); }
    }
  }

  lemma OutsideOtherSlots(runs: seq<SlotRun>, bin: nat, a: nat, offset: nat, b: nat, s: nat)
    requires Disjoint(runs) && bin < BINS && b < BINS && offset < BIN_DATA_SIZE[bin]
    requires a in BinSlots(runs, bin) && s in BinSlots(runs, b) && (bin != b || a != s)
    ensures !(s <= a + offset < s + WORD)
  {
    SlotsShareNothing(runs, bin, a, b, s);
    BinSlotsMember(runs, b, s);
    var r :| r in runs && r.bin == b && InRun(s, r);
    RunsApart(runs, r, r);
    InRunBounds(s, r);
  }

  lemma NewRunSlots(runs: seq<SlotRun>, r: SlotRun)
    requires IsSlotRun(r)
    ensures |SlotsOf(r)| >= 2 && SlotsOf(r)[0] == r.base && Distinct(SlotsOf(r))
    ensures SlotsOf(r)[1] == r.base + BIN_DATA_SIZE[r.bin]
    ensures forall i | 0 <= i < |SlotsOf(r)| :: SlotsOf(r)[i] > 0
    ensures BinSlots(runs + [r], r.bin) == BinSlots(runs, r.bin) + SlotsOf(r)
    ensures forall b | b != r.bin :: BinSlots(runs + [r], b) == BinSlots(runs, b)
  {
    TableFillsPages(r.bin);
    SlotsDistinct(r);
    SlotStep(r.base, BIN_DATA_SIZE[r.bin], BIN_ELEMENTS[r.bin], 0);
    forall i | 0 <= i < |SlotsOf(r)| ensures SlotsOf(r)[i] > 0 { SlotInside(r, i); }
    assert (runs + [r])[..|runs|] == runs;
  }

  /** What becomes of a bin whose list was empty. */
  lemma CutBin(runs: seq<SlotRun>, r: SlotRun, next: map<nat, nat>, used: set<nat>)
    requires IsSlotRun(r) && Outside(runs, r)
    requires Accounts(BinSlots(runs, r.bin), used, []) && IsThreaded(next, SlotsOf(r))
    ensures SlotsOf(r) != [] && SlotsOf(r)[0] == r.base && r.base !in used
    ensures IsBin(next, r.base + BIN_DATA_SIZE[r.bin], BinSlots(runs + [r], r.bin), used + {r.base}, SlotsOf(r)[1..])
  {
    NewRunSlots(runs, r);
    GrowAccounts(BinSlots(runs, r.bin), used, SlotsOf(r));
    NewChain(next, SlotsOf(r));
  }

  /** What Thread leaves is a list of all slots but the first. */
  lemma NewChain(next: map<nat, nat>, slots: seq<nat>)
    requires |slots| >= 2 && IsThreaded(next, slots) && forall i | 1 <= i < |slots| :: slots[i] > 0
    ensures Chain(next, slots[1], slots[1..])
  {
    var list := slots[1..];
    forall i | 0 <= i < |list| ensures list[i] in next && next[list[i]] == if i + 1 < |list| then list[i + 1] else 0 {
      var j := i + 1;
      assert next[slots[j]] == if j + 1 < |slots| then slots[j + 1] else 0;
    }
  }
}
