/** The Zend heap's ring of chunks and zend_mm_alloc_pages over it. */
module PageHeap {
  import opened PageMap
  import opened ChunkPages
  import opened HeapSpec
  import opened Sequences

  function Max(a: nat, b: nat): nat {
    if a >= b then a else b
  }

  function Succ(n: nat, i: nat): nat {
    if i + 1 < n then i + 1 else 0
  }

  function Pred(n: nat, i: nat): nat
    requires i < n
  {
    if i > 0 then i - 1 else n - 1
  }

  /** chunks is a circular doubly linked list, in the order of its next fields. */
  ghost predicate IsRing(chunks: seq<Chunk>)
    reads chunks`next, chunks`prev
  {
    && 1 <= |chunks| && Distinct(chunks)
    && (forall i {:trigger chunks[i].next} | 0 <= i < |chunks| :: chunks[i].next == chunks[Succ(|chunks|, i)])
    && (forall i {:trigger chunks[i].prev} | 0 <= i < |chunks| :: chunks[i].prev == chunks[Pred(|chunks|, i)])
  }

  /** chunks is the list that starts at head and ends with null. */
  ghost predicate IsList(head: Chunk?, chunks: seq<Chunk>)
    reads chunks`next
  {
    && Distinct(chunks)
    && head == (if chunks == [] then null else chunks[0])
    && forall i {:trigger chunks[i].next} | 0 <= i < |chunks| :: chunks[i].next == if i + 1 < |chunks| then chunks[i + 1] else null
  }

  ghost function Without(chunks: seq<Chunk>, j: nat): (r: seq<Chunk>)
    requires j < |chunks|
    ensures |r| == |chunks| - 1 && forall i | 0 <= i < |r| :: r[i] == chunks[if i < j then i else i + 1]
  {
    chunks[..j] + chunks[j + 1..]
  }

  ghost function Behind(chunks: seq<Chunk>, chunk: Chunk): (r: seq<Chunk>)
    requires 1 <= |chunks|
  {
    [chunks[0], chunk] + chunks[1..]
  }

  lemma FrontIsBehind(chunks: seq<Chunk>, j: nat)
    requires 0 < j < |chunks|
    ensures MovedToFront(chunks, j) == Behind(Without(chunks, j), chunks[j])
  {
  }

  method Unlink(chunk: Chunk, ghost ring: seq<Chunk>, ghost j: nat)
    requires IsRing(ring) && 0 < j < |ring| && chunk == ring[j]
    modifies ring`next, ring`prev
    ensures IsRing(Without(ring, j))
  {
    assert chunk.prev == ring[j - 1] && chunk.next == ring[Succ(|ring|, j)];
    chunk.prev.next := chunk.next;
    chunk.next.prev := chunk.prev;
    assert forall o {:trigger ring[o].next} | 0 <= o < |ring| && o != j ::
        ring[o].next == ring[Succ(|ring|, if o == j - 1 then j else o)];
    assert forall o {:trigger ring[o].prev} | 0 <= o < |ring| && o != j ::
        ring[o].prev == ring[if o == Succ(|ring|, j) then j - 1 else Pred(|ring|, o)];
    WithoutRing(ring, j);
  }

  /** A list linked around index j is a ring without index j. */
  lemma WithoutRing(ring: seq<Chunk>, j: nat)
    requires 0 < j < |ring| && Distinct(ring)
    requires forall o {:trigger ring[o].next} | 0 <= o < |ring| && o != j ::
               ring[o].next == ring[Succ(|ring|, if o == j - 1 then j else o)]
    requires forall o {:trigger ring[o].prev} | 0 <= o < |ring| && o != j ::
               ring[o].prev == ring[if o == Succ(|ring|, j) then j - 1 else Pred(|ring|, o)]
    ensures IsRing(Without(ring, j))
  {
    var r := Without(ring, j);
    forall i | 0 <= i < |r| ensures r[i].next == r[Succ(|r|, i)] {
      assert r[i] == ring[if i < j then i else i + 1];
    }
    forall i | 0 <= i < |r| ensures r[i].prev == r[Pred(|r|, i)] {
      assert r[i] == ring[if i < j then i else i + 1];
    }
  }

  method LinkBehind(chunk: Chunk, main: Chunk, ghost ring: seq<Chunk>)
    requires IsRing(ring) && chunk !in ring && main == ring[0]
    modifies ring`next, ring`prev, chunk`next, chunk`prev
    ensures IsRing(Behind(ring, chunk))
  {
    assert main.next == ring[Succ(|ring|, 0)];
    chunk.next := main.next;
    chunk.prev := main;
    chunk.prev.next := chunk;
    chunk.next.prev := chunk;
    assert forall o {:trigger ring[o].next} | 0 < o < |ring| :: ring[o].next == ring[Succ(|ring|, o)];
    assert forall o {:trigger ring[o].prev} | 0 <= o < |ring| && o != Succ(|ring|, 0) :: ring[o].prev == ring[Pred(|ring|, o)];
    BehindRing(ring, chunk);
  }

  /** A list linked around a chunk behind its first is a ring with that chunk. */
  lemma BehindRing(ring: seq<Chunk>, chunk: Chunk)
    requires 1 <= |ring| && Distinct(ring) && chunk !in ring
    requires ring[0].next == chunk && chunk.prev == ring[0]
    requires chunk.next == ring[Succ(|ring|, 0)] && ring[Succ(|ring|, 0)].prev == chunk
    requires forall o {:trigger ring[o].next} | 0 < o < |ring| :: ring[o].next == ring[Succ(|ring|, o)]
    requires forall o {:trigger ring[o].prev} | 0 <= o < |ring| && o != Succ(|ring|, 0) :: ring[o].prev == ring[Pred(|ring|, o)]
    ensures IsRing(Behind(ring, chunk))
  {
    var r := Behind(ring, chunk);
    forall i | 0 <= i < |r| ensures r[i].next == r[Succ(|r|, i)] {
      assert i >= 2 ==> r[i] == ring[i - 1];
    }
    forall i | 0 <= i < |r| ensures r[i].prev == r[Pred(|r|, i)] {
      assert i >= 2 ==> r[i] == ring[i - 1];
    }
  }

  /** The splice at found: unlink the chunk and relink it behind the main chunk. */
  method Splice(chunk: Chunk, main: Chunk, ghost ring: seq<Chunk>, ghost j: nat)
    requires IsRing(ring) && 0 < j < |ring| && chunk == ring[j] && main == ring[0]
    modifies ring`next, ring`prev
    ensures IsRing(MovedToFront(ring, j))
  {
    FrontIsBehind(ring, j);
    Unlink(chunk, ring, j);
    LinkBehind(chunk, main, Without(ring, j));
  }

  /** The links zend_mm_chunk_init makes: the new chunk goes last, before the main chunk. */
  method LinkLast(chunk: Chunk, main: Chunk, ghost ring: seq<Chunk>)
    requires IsRing(ring) && chunk !in ring && main == ring[0]
    modifies ring`next, ring`prev, chunk`next, chunk`prev
    ensures IsRing(ring + [chunk])
  {
    assert main.prev == ring[Pred(|ring|, 0)];
    chunk.next := main;
    chunk.prev := main.prev;
    chunk.prev.next := chunk;
    chunk.next.prev := chunk;
  }

  /** Where the search leaves the hint, the pages to be taken end at or before it. */
  lemma HintCovers(pages: seq<bool>, k: nat, tail: nat, page: nat, len: nat, tail': nat)
    requires |pages| == PAGES && pages[0] && FreeFrom(pages, tail')
    requires IsSearchResult(pages, k, tail, true, page, len, tail')
    ensures 1 <= page && FreeWindow(pages, page, k) && page + k <= tail'
  {
    if page + len < PAGES { assert pages[page + len]; }
  }

  lemma FreshTail(k: nat)
    requires k < PAGES
    ensures FreeWindow(FreshPages(), FIRST_PAGE, k)
  {
  }

  /** The arrays of a chunk are its own, and so is its place in memory. */
  ghost predicate Owns(owner: map<object, Chunk>, memory: map<nat, Chunk>, c: Chunk) {
    && c.freeMap as object in owner && owner[c.freeMap as object] == c
    && c.info as object in owner && owner[c.info as object] == c
    && IsPlace(c.address) && c.address in memory && memory[c.address] == c
  }

  /** Chunks are aligned to their size. */
  predicate IsPlace(address: nat) {
    0 < address && address % CHUNK_SIZE == 0
  }

  lemma {:induction false} PlaceAbove(taken: set<nat>) returns (address: nat)
    ensures IsPlace(address) && forall a | a in taken :: a < address
  {
    if taken == {} {
      address := CHUNK_SIZE;
    } else {
      var a :| a in taken;
      address := PlaceAbove(taken - {a});
      assert forall b | b in taken :: b == a || b in taken - {a};
      if address <= a { address := (a / CHUNK_SIZE + 1) * CHUNK_SIZE; }
    }
  }

  ghost function EntriesOf(chunks: seq<Chunk>): (r: seq<Entry>)
    reads chunks
    ensures |r| == |chunks|
  {
    seq(|chunks|, i requires 0 <= i < |chunks| reads chunks =>
      Entry(chunks[i].address, chunks[i].pages, chunks[i].marks))
  }

  ghost function PlacesOf(chunks: seq<Chunk>): (r: seq<nat>)
    ensures |r| == |chunks|
  {
    seq(|chunks|, i requires 0 <= i < |chunks| => chunks[i].address)
  }

  /** ZEND_MM_PAGE_ADDR, and NULL for a refusal. */
  function Pointer(reply: Reply): nat {
    match reply
    case Refused => 0
    case Granted(address, page, _) => address + page * PAGE_SIZE
  }

  class Heap {
    const width: nat
    var mainChunk: Chunk
    var cachedChunks: Chunk?
    var cachedCount: nat
    var chunksCount: nat
    var peakChunks: nat
    var realSize: nat
    var realPeak: nat
    var limit: nat
    var overflow: bool
    var memory: map<nat, Chunk>           // the chunk at an address
    ghost var ring: seq<Chunk>
    ghost var cached: seq<Chunk>
    ghost var owner: map<object, Chunk>   // the chunk an array belongs to

    ghost predicate Valid()
      reads this, ring, cached, owner.Keys
    {
      Linked() && Sound() && chunksCount == |ring| <= peakChunks && cachedCount == |cached|
    }

    /** The ring and the list of cached chunks are well formed and share no chunk. */
    ghost predicate Linked()
      reads this`mainChunk, this`cachedChunks, this`ring, this`cached, ring`next, ring`prev, cached`next
    {
      && IsRing(ring) && ring[0] == mainChunk
      && IsList(cachedChunks, cached)
      && (forall c | c in cached :: c !in ring)
    }

    /** The chunks of the ring are in order, and a cached chunk has its arrays; none shares them. */
    ghost predicate Sound()
      reads this`ring, this`cached, this`owner, this`memory, ring, cached, owner.Keys
    {
      && (forall c | c in ring :: Owns(owner, memory, c) && c.width == width && c.Valid())
      && (forall c | c in cached :: Owns(owner, memory, c) && c.width == width && c.Shape())
    }

    /** The heap on values. */
    ghost function View(): State
      reads this, ring
    {
      State(EntriesOf(ring), PlacesOf(cached), realSize, limit, overflow)
    }

    /** A heap as it starts: one chunk, which is its own neighbour. */
    constructor (width: nat, limit: nat, address: nat)
      requires (width == 32 || width == 64) && IsPlace(address)
      ensures Valid() && fresh(ring) && fresh(owner.Keys)
      ensures View() == State([Entry(address, FreshPages(), FreshInfo())], [], CHUNK_SIZE, limit, false)
      ensures realPeak == CHUNK_SIZE
    {
      this.width := width;
      var main := new Chunk(width, address);
      main.next, main.prev := main, main;
      mainChunk, cachedChunks := main, null;
      cachedCount, chunksCount, peakChunks := 0, 1, 1;
      realSize, realPeak := CHUNK_SIZE, CHUNK_SIZE;
      this.limit, overflow, memory := limit, false, map[address := main];
      ring, cached, owner := [main], [], map[main.freeMap as object := main, main.info as object := main];
    }

    /** No chunk is in the heap twice. */
    lemma ViewInv()
      requires Valid()
      ensures Inv(View())
    {
      var a, all := Addresses(View()), ring + cached;
      assert |a| == |all| && forall i | 0 <= i < |all| :: a[i] == all[i].address && Owns(owner, memory, all[i]);
      assert forall i | 0 <= i < |ring| :: ring[i] in ring && ring[i].Valid();
      forall i, j | 0 <= i < j < |a| ensures a[i] != a[j] {
        if i < |ring| <= j { assert all[i] in ring && all[j] in cached; }
      }
    }

    /** One chunk of the walk. */
    method TryChunk(chunk: Chunk, k: nat) returns (found: bool, page: nat, ghost len: nat)
      requires Valid() && chunk in ring && 1 <= k < PAGES
      modifies chunk`freeTail
      ensures Valid()
      ensures found ==> IsBestFit(chunk.pages, k, page, len)
      ensures found ==> 1 <= page && FreeWindow(chunk.pages, page, k) && page + k <= chunk.freeTail
      ensures !found ==> NoFit(chunk.pages, k)
    {
      if chunk.freePages < k {
        TooFewFreeNoFit(chunk.pages, k);
        return false, 0, 0;
      }
      ghost var tail := chunk.freeTail;
      found, page, len := chunk.BestFit(k);
      if found {
        HintCovers(chunk.pages, k, tail, page, len, chunk.freeTail);
      }
    }

    /** The walk over the ring, each chunk at most once: stop at the first chunk with a fit, or at
        the last chunk. */
    method FindFit(k: nat) returns (chunk: Chunk, found: bool, page: nat, steps: nat, ghost len: nat)
      requires Valid() && 1 <= k < PAGES
      modifies ring`freeTail
      ensures Valid() && steps < |ring| && chunk == ring[steps]
      ensures forall i | 0 <= i < steps :: NoFit(ring[i].pages, k)
      ensures if found then IsBestFit(chunk.pages, k, page, len) else steps == |ring| - 1 && NoFit(chunk.pages, k)
      ensures found ==> 1 <= page && FreeWindow(chunk.pages, page, k) && page + k <= chunk.freeTail
    {
      chunk, steps := mainChunk, 0;
      found, page, len := TryChunk(chunk, k);
      while !found && chunk.next != mainChunk
        invariant Valid() && steps < |ring| && chunk == ring[steps]
        invariant forall i | 0 <= i < steps :: NoFit(ring[i].pages, k)
        invariant if found then IsBestFit(chunk.pages, k, page, len) else NoFit(chunk.pages, k)
        invariant found ==> 1 <= page && FreeWindow(chunk.pages, page, k) && page + k <= chunk.freeTail
        decreases |ring| - steps
      {
        chunk := chunk.next;
        steps := steps + 1;
        found, page, len := TryChunk(chunk, k);
      }
    }

    /** Counts a chunk that is in no list and links it into the ring. */
    method Link(chunk: Chunk)
      requires Linked() && chunk !in ring + cached
      modifies this`chunksCount, this`peakChunks, this`ring, ring`next, ring`prev, chunk`next, chunk`prev
      ensures Linked() && ring == old(ring) + [chunk]
      ensures chunksCount == old(chunksCount) + 1 && peakChunks == Max(old(peakChunks), chunksCount)
    {
      chunksCount := chunksCount + 1;
      if chunksCount > peakChunks {
        peakChunks := chunksCount;
      }
      LinkLast(chunk, mainChunk, ring);
      ring := ring + [chunk];
      assert forall c | c in cached :: c != chunk && c.next == old(c.next);
    }

    /** Links do not matter to what a chunk holds. */
    twostate lemma StillSound(chunk: Chunk)
      requires old(Sound()) && Owns(owner, memory, chunk) && chunk.width == width && old(chunk.Valid())
      requires unchanged(this`owner, this`memory) && cached == old(cached) && ring == old(ring) + [chunk]
      requires forall c: Chunk | c in ring + cached ::
                 unchanged(c`freePages, c`freeTail, c`pages, c`marks) && unchanged(c.freeMap, c.info)
      ensures Sound()
    {
    }

    /** Clears a chunk that is in no list. */
    method Prepare(chunk: Chunk)
      requires Valid() && chunk !in ring + cached && chunk.Shape() && chunk.width == width && Owns(owner, memory, chunk)
      modifies chunk`freePages, chunk`freeTail, chunk`pages, chunk`marks, chunk.freeMap, chunk.info
      ensures Valid() && chunk.Valid()
      ensures chunk.pages == FreshPages() && chunk.marks == FreshInfo() && chunk.freeTail == FIRST_PAGE
    {
      chunk.Reset();
      forall c | c in ring + cached
        ensures c != chunk && c.freeMap[..] == old(c.freeMap[..]) && c.info[..] == old(c.info[..])
      {
        assert Owns(owner, memory, c);
      }
    }

    /** Brings a cleared chunk that is in no list into the ring. */
    method Attach(chunk: Chunk)
      requires Valid() && chunk !in ring + cached && chunk.Valid() && chunk.width == width && Owns(owner, memory, chunk)
      modifies this`chunksCount, this`peakChunks, this`ring, ring`next, ring`prev, chunk`next, chunk`prev
      ensures Valid() && ring == old(ring) + [chunk] && peakChunks == Max(old(peakChunks), chunksCount)
    {
      Link(chunk);
      StillSound(chunk);
    }

    /** Clears a chunk that is in no list and brings it into the ring. */
    method Adopt(chunk: Chunk)
      requires Valid() && chunk !in ring + cached && chunk.Shape() && chunk.width == width && Owns(owner, memory, chunk)
      modifies this`chunksCount, this`peakChunks, this`ring, ring`next, ring`prev
      modifies chunk`next, chunk`prev, chunk`freePages, chunk`freeTail, chunk`pages, chunk`marks, chunk.freeMap, chunk.info
      ensures Valid() && ring == old(ring) + [chunk]
      ensures chunk.pages == FreshPages() && chunk.marks == FreshInfo() && chunk.freeTail == FIRST_PAGE
      ensures peakChunks == Max(old(peakChunks), chunksCount)
    {
      Prepare(chunk);
      Attach(chunk);
    }

    /** Takes the first cached chunk out of its list. */
    method Uncache() returns (chunk: Chunk)
      requires Valid() && cachedChunks != null
      modifies this`cachedCount, this`cachedChunks, this`cached
      ensures Valid() && chunk == old(cached)[0] && cached == old(cached)[1..]
      ensures chunk !in ring + cached && chunk.Shape() && chunk.width == width
      ensures Owns(owner, memory, chunk)
    {
      cachedCount := cachedCount - 1;
      chunk := cachedChunks;
      cachedChunks := chunk.next;
      cached := cached[1..];
    }

    /** Moves a chunk that is far down the ring to just behind the main chunk. */
    method MoveToFront(chunk: Chunk, ghost j: nat)
      requires Linked() && 0 < j < |ring| && ring[j] == chunk
      modifies this`ring, ring`next, ring`prev
      ensures Linked() && ring == MovedToFront(old(ring), j)
      ensures forall c :: c in ring <==> c in old(ring)
      ensures EntriesOf(old(ring)) == old(EntriesOf(ring))
    {
      MovedToFrontSame(ring, j);
      Splice(chunk, mainChunk, ring, j);
      ring := MovedToFront(ring, j);
      assert forall c | c in cached :: c.next == old(c.next);
    }

    /** Marks a run in one chunk of the ring; nothing else changes in any chunk. */
    method Mark(chunk: Chunk, page: nat, k: nat, ghost chunks: seq<Chunk>, ghost at: nat)
      requires Valid() && chunk in ring
      requires 1 <= k && 1 <= page && FreeWindow(chunk.pages, page, k)
      requires page + k <= chunk.freeTail || page == chunk.freeTail
      requires at < |chunks| && chunk == chunks[at] && Distinct(chunks)
      modifies chunk`freePages, chunk`freeTail, chunk`pages, chunk`marks, chunk.freeMap, chunk.info
      ensures Valid()
      ensures var before := old(EntriesOf(chunks)); EntriesOf(chunks) == before[at := Marked(before[at], page, k)]
    {
      chunk.Take(page, k);
      forall c | c in ring + cached && c != chunk
        ensures c.freeMap[..] == old(c.freeMap[..]) && c.info[..] == old(c.info[..])
      {
        assert Owns(owner, memory, c);
      }
      ghost var before := old(EntriesOf(chunks));
      forall i | 0 <= i < |before| ensures EntriesOf(chunks)[i] == before[at := Marked(before[at], page, k)][i] {
        if i != at { assert chunks[i] != chunk; }
      }
    }

    /** The splice at found, which is for small runs found far down the ring. */
    method Advance(chunk: Chunk, k: nat, steps: nat, ghost at: nat)
      requires Valid() && at < |ring| && ring[at] == chunk && steps <= at
      modifies this`ring, ring`next, ring`prev
      ensures Valid() && ring == Placed(old(ring), at, steps, k)
      ensures forall c :: c in ring <==> c in old(ring)
      ensures EntriesOf(old(ring)) == old(EntriesOf(ring))
    {
      if steps > 2 && k < 8 {
        MoveToFront(chunk, at);
      }
    }

    /** The code at found: a small run found far down the ring moves its chunk to the front;
        then the run is marked. */
    method Finish(chunk: Chunk, page: nat, k: nat, steps: nat, ghost at: nat)
      requires Valid() && at < |ring| && ring[at] == chunk && steps <= at
      requires 1 <= k && 1 <= page && FreeWindow(chunk.pages, page, k)
      requires page + k <= chunk.freeTail || page == chunk.freeTail
      modifies this`ring, ring`next, ring`prev
      modifies chunk`freePages, chunk`freeTail, chunk`pages, chunk`marks, chunk.freeMap, chunk.info
      ensures Valid() && forall c :: c in ring <==> c in old(ring)
      ensures View() == MarkedAt(old(View()), at, steps, page, k)
    {
      Advance(chunk, k, steps, at);
      Mark(chunk, page, k, old(ring), at);
      EntriesPlaced(old(ring), at, steps, k);
    }

    /** Brings the first cached chunk back into the ring. */
    method Reuse() returns (chunk: Chunk)
      requires Valid() && cachedChunks != null
      modifies this`cachedCount, this`cachedChunks, this`cached, this`chunksCount, this`peakChunks, this`ring
      modifies ring`next, ring`prev, cachedChunks, cachedChunks.freeMap, cachedChunks.info
      ensures Valid() && ring == old(ring) + [chunk] && [chunk] + cached == old(cached)
      ensures chunk.pages == FreshPages() && chunk.marks == FreshInfo() && chunk.freeTail == FIRST_PAGE
      ensures peakChunks == Max(old(peakChunks), chunksCount)
    {
      chunk := Uncache();
      Adopt(chunk);
    }

    /** A chunk from the system, accounted for but in no list yet, at an address where there was none. */
    method Map() returns (chunk: Chunk)
      requires Valid()
      modifies this`realSize, this`realPeak, this`owner, this`memory
      ensures Valid() && fresh(chunk) && fresh(chunk.freeMap) && fresh(chunk.info)
      ensures realSize == old(realSize) + CHUNK_SIZE && realPeak == Max(old(realPeak), realSize)
      ensures chunk !in ring + cached && chunk.Shape() && chunk.width == width && Owns(owner, memory, chunk)
      ensures chunk.address !in old(memory) && memory == old(memory)[chunk.address := chunk]
      ensures owner.Keys == old(owner.Keys) + {chunk.freeMap, chunk.info}
    {
      assert mainChunk in ring;
      ghost var above := PlaceAbove(memory.Keys);
      assert above !in memory;
      var address: nat :| IsPlace(address) && address !in memory;
      chunk := new Chunk(width, address);
      realSize := realSize + CHUNK_SIZE;
      realPeak := Max(realPeak, realSize);
      Enter(chunk);
    }

    /** Notes where a chunk is and which arrays it has. */
    method Enter(chunk: Chunk)
      requires Valid() && chunk !in ring + cached && IsPlace(chunk.address) && chunk.address !in memory
      requires chunk.freeMap as object !in owner && chunk.info as object !in owner
      modifies this`owner, this`memory
      ensures Valid() && Owns(owner, memory, chunk)
      ensures memory == old(memory)[chunk.address := chunk] && owner.Keys == old(owner.Keys) + {chunk.freeMap, chunk.info}
    {
      memory := memory[chunk.address := chunk];
      owner := owner[chunk.freeMap as object := chunk][chunk.info as object := chunk];
      forall c | c in ring + cached ensures Owns(owner, memory, c) {
        assert old(Owns(owner, memory, c));
      }
    }

    /** Brings a chunk from the system into the ring. */
    method Obtain() returns (chunk: Chunk)
      requires Valid()
      modifies this`realSize, this`realPeak, this`chunksCount, this`peakChunks, this`ring, this`owner, this`memory
      modifies ring`next, ring`prev
      ensures Valid() && fresh(chunk) && ring == old(ring) + [chunk]
      ensures chunk.pages == FreshPages() && chunk.marks == FreshInfo() && chunk.freeTail == FIRST_PAGE
      ensures chunk.address !in old(memory) && memory == old(memory)[chunk.address := chunk]
      ensures realSize == old(realSize) + CHUNK_SIZE && realPeak == Max(old(realPeak), realSize)
      ensures peakChunks == Max(old(peakChunks), chunksCount)
      ensures owner.Keys == old(owner.Keys) + {chunk.freeMap, chunk.info} && fresh(chunk.freeMap) && fresh(chunk.info)
    {
      chunk := Map();
      Adopt(chunk);
    }

    /** The chunks of the heap are those it had, and new ones from the system. */
    twostate predicate OnlyOwn()
      reads this
    {
      && (forall c | c in ring :: c in old(ring) || c in old(cached) || fresh(c))
      && (forall c | c in cached :: c in old(cached))
      && (forall c | c in old(ring) :: c in ring)
      && (forall o | o in owner.Keys :: o in old(owner.Keys) || fresh(o))
    }

    /** The code at get_chunk: a cached chunk if there is one, otherwise one from the system. */
    method NewChunk(osGives: bool) returns (chunk: Chunk?)
      requires Valid()
      modifies this, ring`next, ring`prev, cached, owner.Keys
      ensures Valid() && mainChunk == old(mainChunk) && limit == old(limit) && overflow == old(overflow)
      ensures chunk == null <==> !old(CanGrow(View(), osGives))
      ensures chunk == null ==> unchanged(this) && unchanged(ring)
      ensures chunk != null ==>
                && ring == old(ring) + [chunk] && peakChunks == Max(old(peakChunks), chunksCount)
                && chunk.pages == FreshPages() && chunk.marks == FreshInfo() && chunk.freeTail == FIRST_PAGE
                && if old(cachedChunks) != null
                   then [chunk] + cached == old(cached) && realSize == old(realSize) && realPeak == old(realPeak)
                        && memory == old(memory)
                   else && fresh(chunk) && cached == [] && realSize == old(realSize) + CHUNK_SIZE
                        && chunk.address !in old(memory) && memory == old(memory)[chunk.address := chunk]
                        && realPeak == Max(old(realPeak), realSize)
      ensures OnlyOwn() && forall c | c in old(ring) :: c.pages == old(c.pages) && c.marks == old(c.marks)
    {
      if cachedChunks != null {
        assert cachedChunks == cached[0] && Owns(owner, memory, cached[0]);
        chunk := Reuse();
      } else {
        if realSize + CHUNK_SIZE > limit && !overflow { return null; }
        if !osGives { return null; }
        chunk := Obtain();
      }
    }

    /** The entries of the ring with one more chunk. */
    twostate lemma EntriesAdded(new chunk: Chunk)
      requires forall c | c in old(ring) :: c.pages == old(c.pages) && c.marks == old(c.marks)
      ensures EntriesOf(old(ring) + [chunk]) == old(EntriesOf(ring)) + [Entry(chunk.address, chunk.pages, chunk.marks)]
    {
      forall i | 0 <= i < |old(ring)| ensures EntriesOf(old(ring) + [chunk])[i] == old(EntriesOf(ring))[i] {
        assert old(ring)[i] in old(ring);
      }
    }

    /** get_chunk, on values. */
    method GetChunk(osGives: bool) returns (chunk: Chunk?)
      requires Valid()
      modifies this, ring`next, ring`prev, cached, owner.Keys
      ensures Valid() && mainChunk == old(mainChunk) && OnlyOwn()
      ensures chunk == null <==> !old(CanGrow(View(), osGives))
      ensures chunk == null ==> View() == old(View())
      ensures chunk != null ==>
                && Added(old(View()), chunk.address, View()) && ring == old(ring) + [chunk]
                && chunk.pages == FreshPages() && chunk.freeTail == FIRST_PAGE && chunk.address > 0
                && (if old(cached) != [] then chunk == old(cached)[0] else fresh(chunk))
                && (chunk.freeMap as object in old(owner.Keys) || fresh(chunk.freeMap))
                && (chunk.info as object in old(owner.Keys) || fresh(chunk.info))
    {
      assert forall i | 0 <= i < |ring| :: ring[i] in ring && Owns(owner, memory, ring[i]);
      chunk := NewChunk(osGives);
      if chunk != null {
        assert chunk in ring && Owns(owner, memory, chunk);
        EntriesAdded(chunk);
        if old(cached) != [] {
          PlacesTail(old(cached), chunk, cached);
        }
      }
    }

    /** From get_chunk to the end, after a walk over the whole ring. */
    method Grow(k: nat, osGives: bool, steps: nat) returns (chunk: Chunk?, page: nat)
      requires Valid() && 1 <= k < PAGES && steps == |ring| - 1
      requires forall i | 0 <= i < |ring| :: NoFit(ring[i].pages, k)
      modifies this, ring`next, ring`prev, cached, owner.Keys
      ensures Valid() && mainChunk == old(mainChunk) && OnlyOwn()
      ensures if chunk == null then Serves(old(View()), k, osGives, Refused, View())
              else && page == FIRST_PAGE && chunk.address > 0
                   && Grown(old(View()), k, osGives, Granted(chunk.address, page, k), View())
    {
      page := FIRST_PAGE;
      chunk := GetChunk(osGives);
      if chunk != null {
        FreshTail(k);
        ghost var added := View();
        Finish(chunk, page, k, steps, |ring| - 1);
        AddedThenMarked(old(View()), k, osGives, chunk.address, added);
      }
    }

    /** The page map entries for a small run at ptr. */
    method NoteSmall(ptr: nat, bin: nat, count: nat, ghost page: nat, ghost noted: Chunk)
      requires Valid() && noted in ring && noted.address in memory && memory[noted.address] == noted
      requires 1 <= count && page + count <= PAGES && ptr == noted.address + page * PAGE_SIZE
      modifies noted`marks, noted.info
      ensures Valid() && View() == Noted(old(View()), noted.address, page, bin, count)
    {
      ghost var address := noted.address;
      assert Owns(owner, memory, noted);
      PointerParts(address, page);
      var chunk := memory[ptr - ptr % CHUNK_SIZE];
      var pageNum := ptr % CHUNK_SIZE / PAGE_SIZE;
      chunk.MarkSmall(pageNum, bin, count);
      forall c | c in ring + cached && c != chunk
        ensures c.info[..] == old(c.info[..]) && c.address != address
      {
        assert Owns(owner, memory, c);
      }
      forall i | 0 <= i < |ring|
        ensures EntriesOf(ring)[i] == Noted(old(View()), address, page, bin, count).ring[i]
      {
        assert ring[i] in ring;
      }
    }

    /** Its body.  The first chunk of the ring with a fit gives its best fit; otherwise
        the ring grows, by a cached chunk if there is one; it returns NULL when it cannot grow. */
    method ServePages(k: nat, osGives: bool) returns (ptr: nat, ghost reply: Reply)
      requires Valid() && 1 <= k < PAGES
      modifies this, ring, cached, owner.Keys
      ensures Valid() && mainChunk == old(mainChunk) && OnlyOwn()
      ensures Serves(old(View()), k, osGives, reply, View()) && ptr == Pointer(reply)
      ensures reply.Granted? ==> reply.address > 0
    {
      ghost var len;
      var fit: Chunk, found, page, steps;
      fit, found, page, steps, len := FindFit(k);
      assert View() == old(View());
      if found {
        assert fit in ring && Owns(owner, memory, fit);
        Finish(fit, page, k, steps, steps);
        ServedOnValues(old(View()), k, steps, page, len, View());
        ptr, reply := fit.address + page * PAGE_SIZE, Granted(fit.address, page, k);
      } else {
        var chunk;
        chunk, page := Grow(k, osGives, steps);
        if chunk == null { return 0, Refused; }
        ptr, reply := chunk.address + page * PAGE_SIZE, Granted(chunk.address, page, k);
      }
    }

    /** The condition for a refusal, on the fields. */
    ghost predicate MustRefuse(k: nat, osGives: bool)
      reads this`ring, this`cachedChunks, this`overflow, this`realSize, this`limit, ring
    {
      && (forall c | c in ring :: NoFit(c.pages, k)) && cachedChunks == null
      && (!osGives || (!overflow && realSize + 0x20_0000 > limit))
    }

    lemma RefusalOnValues(k: nat, osGives: bool)
      requires Valid()
      ensures MustRefuse(k, osGives) <==>
              && (forall i | 0 <= i < |View().ring| :: NoFit(View().ring[i].pages, k)) && View().cached == []
              && (!osGives || (!overflow && realSize + 0x20_0000 > limit))
    {
      var s := View();
      assert forall i | 0 <= i < |ring| :: s.ring[i].pages == ring[i].pages && ring[i] in ring;
    }

    /** zend_mm_alloc_pages: NULL exactly when no chunk of the ring has a run for the request, none is
        cached, and the system has none to give or one more would exceed the limit. */
    method AllocPages(k: nat, osGives: bool) returns (ptr: nat, ghost reply: Reply)
      requires Valid() && 1 <= k < PAGES
      modifies this, ring, cached, owner.Keys
      ensures Valid() && mainChunk == old(mainChunk) && OnlyOwn()
      ensures Serves(old(View()), k, osGives, reply, View()) && ptr == Pointer(reply)
      ensures ptr == 0 <==> old(MustRefuse(k, osGives))
      ensures limit == old(limit) && overflow == old(overflow)
      ensures old(!overflow && realSize <= limit) ==> realSize <= limit
    {
      ghost var before := View();
      RefusalOnValues(k, osGives);
      ptr, reply := ServePages(k, osGives);
      RefusedIff(before, k, osGives, reply, View());
      LimitKept(before, k, osGives, reply, View());
    }

    /** One request of a run. */
    method Answer(request: Request) returns (ptr: nat, ghost reply: Reply)
      requires Valid() && 1 <= request.count < PAGES
      modifies this, ring, cached, owner.Keys
      ensures Valid() && OnlyOwn()
      ensures Serves(old(View()), request.count, request.osGives, reply, View()) && ptr == Pointer(reply)
    {
      ptr, reply := AllocPages(request.count, request.osGives);
    }
  }

  /** A pointer into a chunk tells which chunk and which page: ZEND_MM_ALIGNED_BASE and
      ZEND_MM_ALIGNED_OFFSET. */
  lemma PointerParts(address: nat, page: nat)
    requires IsPlace(address) && page < PAGES
    ensures var ptr := address + page * PAGE_SIZE;
            ptr - ptr % CHUNK_SIZE == address && ptr % CHUNK_SIZE / PAGE_SIZE == page
  {
  }

  lemma PlacesTail(chunks: seq<Chunk>, chunk: Chunk, rest: seq<Chunk>)
    requires chunks == [chunk] + rest
    ensures PlacesOf(chunks) != [] && PlacesOf(chunks)[0] == chunk.address && PlacesOf(rest) == PlacesOf(chunks)[1..]
  {
  }

  lemma ServedOnValues(s: State, k: nat, at: nat, page: nat, len: nat, s': State)
    requires at < |s.ring| && NoneFits(s, at, k) && IsBestFit(s.ring[at].pages, k, page, len)
    requires s' == MarkedAt(s, at, at, page, k)
    ensures ServedAt(s, k, at, Granted(s.ring[at].address, page, k), s')
  {
  }

  lemma EntriesPlaced(chunks: seq<Chunk>, j: nat, steps: nat, k: nat)
    requires j < |chunks|
    ensures EntriesOf(Placed(chunks, j, steps, k)) == Placed(EntriesOf(chunks), j, steps, k)
  {
    var l, r := EntriesOf(Placed(chunks, j, steps, k)), Placed(EntriesOf(chunks), j, steps, k);
    forall i | 0 <= i < |chunks| ensures l[i] == r[i] {
    }
  }

  // ----- runs of allocations

  /** Any run of requests follows the specification of a run. */
  method AllocRun(heap: Heap, requests: seq<Request>)
    returns (ptrs: seq<nat>, ghost replies: seq<Reply>, ghost states: seq<State>)
    requires heap.Valid() && Proper(requests)
    modifies heap, heap.ring, heap.cached, heap.owner.Keys
    ensures heap.Valid() && IsRun(states, requests, replies)
    ensures states[0] == old(heap.View()) && states[|requests|] == heap.View()
    ensures |ptrs| == |requests| && forall i | 0 <= i < |requests| :: ptrs[i] == Pointer(replies[i])
  {
    ptrs, replies, states := [], [], [heap.View()];
    for n := 0 to |requests|
      invariant heap.Valid() && heap.OnlyOwn()
      invariant IsRun(states, requests[..n], replies) && states[0] == old(heap.View()) && states[n] == heap.View()
      invariant |ptrs| == n && forall i | 0 <= i < n :: ptrs[i] == Pointer(replies[i])
    {
      assert forall i | 0 <= i < |heap.ring| ::
          heap.ring[i] in old(heap.ring) || heap.ring[i] in old(heap.cached) || fresh(heap.ring[i]);
      assert forall i | 0 <= i < |heap.cached| :: heap.cached[i] in old(heap.cached);
      var ptr;
      ghost var reply;
      ptr, reply := heap.Answer(requests[n]);
      RunSnoc(states, requests, replies, n, reply, heap.View());
      ptrs, replies, states := ptrs + [ptr], replies + [reply], states + [heap.View()];
    }
    assert requests[..|requests|] == requests;
  }

  /** So no page is granted twice, and every page granted is marked at the end. */
  method AllocAll(heap: Heap, requests: seq<Request>)
    returns (ptrs: seq<nat>, ghost replies: seq<Reply>, ghost states: seq<State>)
    requires heap.Valid() && Proper(requests)
    modifies heap, heap.ring, heap.cached, heap.owner.Keys
    ensures heap.Valid() && IsRun(states, requests, replies)
    ensures states[0] == old(heap.View()) && states[|requests|] == heap.View()
    ensures |ptrs| == |requests| && forall i | 0 <= i < |requests| :: ptrs[i] == Pointer(replies[i])
    ensures forall i, j | 0 <= i < j < |requests| :: Apart(replies[i], replies[j])
    ensures forall i | 0 <= i < |requests| :: Holds(heap.View(), replies[i])
  {
    heap.ViewInv();
    ptrs, replies, states := AllocRun(heap, requests);
    RunApart(states, requests, replies);
  }
}
