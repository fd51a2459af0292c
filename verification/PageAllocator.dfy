/** One chunk of the Zend heap: 512 pages, a bitmap that says which are allocated, and
    the best-fit search over that bitmap. */
module ChunkPages {
  import opened Words
  import opened PageMap

  datatype PageInfo = FreePage | LRun(count: nat) | SRun(bin: nat) | NRun(bin: nat, offset: nat)

  /** ZEND_MM_FIRST_PAGE */
  const FIRST_PAGE := 1

  // ----- the bitmap, page by page

  /** A page map of 16 words of 32 bits or of 8 words of 64 bits. */
  predicate IsMap(words: seq<nat>, width: nat) {
    && ((width == 32 && |words| == 16) || (width == 64 && |words| == 8))
    && forall w | 0 <= w < |words| :: words[w] < Pow2(width)
  }

  /** Page p is bit p % width of word p / width. */
  predicate PageBit(words: seq<nat>, width: nat, p: nat)
    requires IsMap(words, width) && p < PAGES
  {
    Bit(words[WordOf(width, p)], BitOf(width, p))
  }

  /** The map says of every page whether it is allocated, as pages does. */
  ghost predicate Shows(words: seq<nat>, width: nat, pages: seq<bool>) {
    && IsMap(words, width) && |pages| == PAGES
    && forall p {:trigger PageBit(words, width, p)} | 0 <= p < PAGES :: PageBit(words, width, p) == pages[p]
  }

  function WordOf(width: nat, p: nat): nat {
    if width == 32 then p / 32 else p / 64
  }

  function BitOf(width: nat, p: nat): nat {
    if width == 32 then p % 32 else p % 64
  }

  /** The first page of word w. */
  function FirstPageOf(width: nat, w: nat): nat {
    if width == 32 then 32 * w else 64 * w
  }

  /** tmp is the word of pages i, i + 1, ... with everything below pos marked allocated. */
  ghost predicate Filled(pages: seq<bool>, width: nat, i: nat, tmp: nat, pos: nat)
    requires i + width <= |pages|
  {
    tmp < Pow2(width) && forall b | 0 <= b < width :: Bit(tmp, b) == (i + b < pos || pages[i + b])
  }

  /** tmp is the word of pages i, i + 1, ... with everything up to start marked free. */
  ghost predicate Cleared(pages: seq<bool>, width: nat, i: nat, tmp: nat, start: nat)
    requires i + width <= |pages|
  {
    tmp < Pow2(width) && forall b | 0 <= b < width :: Bit(tmp, b) == (i + b > start && pages[i + b])
  }

  lemma WordAndBit(width: nat, w: nat, b: nat)
    requires (width == 32 || width == 64) && b < width
    ensures width == 32 ==> (32 * w + b) / 32 == w && (32 * w + b) % 32 == b
    ensures width == 64 ==> (64 * w + b) / 64 == w && (64 * w + b) % 64 == b
  {
  }

  lemma LoadWord(words: seq<nat>, width: nat, w: nat, pages: seq<bool>)
    requires Shows(words, width, pages) && w < |words|
    ensures var i := FirstPageOf(width, w);
            && i + width <= PAGES && (w + 1 < |words| <==> i + width < PAGES)
            && forall b | 0 <= b < width :: Bit(words[w], b) == pages[i + b]
  {
    var i := FirstPageOf(width, w);
    forall b | 0 <= b < width ensures Bit(words[w], b) == pages[i + b] {
      WordAndBit(width, w, b);
      assert PageBit(words, width, i + b) == pages[i + b];
    }
  }

  /** A freshly loaded word, seen from a position at or before its first page. */
  lemma LoadFilled(words: seq<nat>, width: nat, w: nat, pages: seq<bool>)
    requires Shows(words, width, pages) && w < |words|
    ensures var i := FirstPageOf(width, w);
            && i + width <= PAGES && (w + 1 < |words| <==> i + width < PAGES)
            && Filled(pages, width, i, words[w], i)
  {
    LoadWord(words, width, w, pages);
  }

  lemma LoadCleared(words: seq<nat>, width: nat, w: nat, start: nat, pages: seq<bool>)
    requires Shows(words, width, pages) && w < |words| && start < FirstPageOf(width, w)
    ensures var i := FirstPageOf(width, w);
            && i + width <= PAGES && (w + 1 < |words| <==> i + width < PAGES)
            && Cleared(pages, width, i, words[w], start)
  {
    LoadWord(words, width, w, pages);
  }

  lemma SkipFullWord(pages: seq<bool>, width: nat, i: nat, tmp: nat, pos: nat)
    requires i + width <= |pages| && Filled(pages, width, i, tmp, pos) && tmp == Ones(width)
    ensures forall p | i <= p < i + width && pos <= p :: pages[p]
  {
    OnesOrClearBit(tmp, width);
    forall p | i <= p < i + width && pos <= p ensures pages[p] {
      assert Bit(tmp, p - i);
    }
  }

  /** The next free page is in this word; below it the word is cleared. */
  method FindZero(width: nat, i: nat, tmp: nat, ghost pages: seq<bool>, ghost pos: nat) returns (page: nat, tmp': nat)
    requires width == 32 || width == 64
    requires i + width <= |pages| && Filled(pages, width, i, tmp, pos) && tmp != Ones(width)
    requires i <= pos < i + width && Boundary(pages, pos) && pages[0]
    ensures pos <= page < i + width && forall p | pos <= p < page :: pages[p]
    ensures 0 < page && !pages[page] && pages[page - 1]
    ensures Cleared(pages, width, i, tmp', page)
  {
    var n := CountTrailingOnes(width, tmp);
    page := i + n;
    ZeroPage(pages, width, i, tmp, pos, n);
    RunStart(pages, pos, page);
    tmp' := And(tmp, tmp + 1);
    ClearedWord(pages, width, i, tmp, pos, tmp');
  }

  /** The first free page from a boundary on starts a run. */
  lemma RunStart(pages: seq<bool>, pos: nat, page: nat)
    requires pos <= page < |pages| && Boundary(pages, pos) && pages[0] && !pages[page]
    requires forall p | pos <= p < page :: pages[p]
    ensures 0 < page && pages[page - 1]
  {
  }

  lemma ZeroPage(pages: seq<bool>, width: nat, i: nat, tmp: nat, pos: nat, n: nat)
    requires i + width <= |pages| && Filled(pages, width, i, tmp, pos) && tmp != Ones(width) && n == TrailingOnes(tmp)
    ensures n < width && pos <= i + n && !pages[i + n]
    ensures forall p | i <= p < i + n && pos <= p :: pages[p]
  {
    OnesOrClearBit(tmp, width);
    TrailingOnesBits(tmp, n);
    forall p | i <= p < i + n && pos <= p ensures pages[p] {
      TrailingOnesBits(tmp, p - i);
    }
  }

  lemma ClearedWord(pages: seq<bool>, width: nat, i: nat, tmp: nat, pos: nat, cleared: nat)
    requires i + width <= |pages| && Filled(pages, width, i, tmp, pos) && tmp != Ones(width)
    requires cleared == And(tmp, tmp + 1)
    ensures Cleared(pages, width, i, cleared, i + TrailingOnes(tmp))
  {
    var n := TrailingOnes(tmp);
    ZeroPage(pages, width, i, tmp, pos, n);
    AndBound(tmp, tmp + 1);
    forall b | 0 <= b < width ensures Bit(cleared, b) == (i + b > i + n && pages[i + b]) {
      ClearTrailingOnes(tmp, b);
    }
  }

  lemma SkipEmptyWord(pages: seq<bool>, width: nat, i: nat, tmp: nat, start: nat)
    requires i + width <= |pages| && Cleared(pages, width, i, tmp, start) && tmp == 0
    ensures forall p | i <= p < i + width && start < p :: !pages[p]
  {
    forall p | i <= p < i + width && start < p ensures !pages[p] {
      ZeroHasNoBits(p - i);
    }
  }

  /** The free run ends in this word; below its end the word is filled. */
  method FindOne(width: nat, i: nat, tmp: nat, ghost pages: seq<bool>, ghost start: nat) returns (stop: nat, tmp': nat)
    requires i + width <= |pages| && Cleared(pages, width, i, tmp, start) && tmp != 0
    requires 0 < start < i + width && pages[start - 1] && !pages[start]
    requires forall p | start <= p < i :: !pages[p]
    ensures i <= stop < i + width && start < stop && pages[stop] && MaxRun(pages, start, stop - start)
    ensures Filled(pages, width, i, tmp', stop)
  {
    stop := i + TrailingZeros(tmp);
    OnePage(pages, width, i, tmp, start, TrailingZeros(tmp));
    tmp' := Or(tmp, tmp - 1);
    FilledWord(pages, width, i, tmp, start, tmp');
  }

  lemma OnePage(pages: seq<bool>, width: nat, i: nat, tmp: nat, start: nat, n: nat)
    requires i + width <= |pages| && Cleared(pages, width, i, tmp, start) && tmp != 0 && n == TrailingZeros(tmp)
    ensures n < width && start < i + n && pages[i + n]
    ensures forall p | i <= p < i + n && start < p :: !pages[p]
  {
    TrailingZerosBound(tmp, width);
    TrailingZerosBits(tmp, n);
    forall p | i <= p < i + n && start < p ensures !pages[p] {
      TrailingZerosBits(tmp, p - i);
    }
  }

  lemma FilledWord(pages: seq<bool>, width: nat, i: nat, tmp: nat, start: nat, filled: nat)
    requires i + width <= |pages| && Cleared(pages, width, i, tmp, start) && tmp != 0
    requires filled == Or(tmp, tmp - 1)
    ensures Filled(pages, width, i, filled, i + TrailingZeros(tmp))
  {
    var n := TrailingZeros(tmp);
    OnePage(pages, width, i, tmp, start, n);
    OrBound(tmp, tmp - 1, width);
    forall b | 0 <= b < width ensures Bit(filled, b) == (i + b < i + n || pages[i + b]) {
      FillTrailingZeros(tmp, b);
    }
  }

  ghost function FreshPages(): (pages: seq<bool>)
    ensures |pages| == PAGES
  {
    seq(PAGES, p => p < FIRST_PAGE)
  }

  ghost function FreshInfo(): seq<PageInfo> {
    seq(PAGES, p => if p == 0 then LRun(FIRST_PAGE) else FreePage)
  }

  ghost predicate AreFresh(words: seq<nat>, width: nat) {
    && (width == 32 || width == 64) && |words| == (if width == 32 then 16 else 8)
    && forall w | 0 <= w < |words| :: words[w] == if w == 0 then 1 else 0
  }

  lemma FreshBit(words: seq<nat>, width: nat, p: nat)
    requires AreFresh(words, width) && IsMap(words, width) && p < PAGES
    ensures PageBit(words, width, p) == (p < FIRST_PAGE)
  {
    ZeroHasNoBits(BitOf(width, p));
    Pow2Bit(0, p);
  }

  lemma FreshWords(words: seq<nat>, width: nat)
    requires AreFresh(words, width)
    ensures Shows(words, width, FreshPages())
  {
    Pow2Monotone(0, width);
    forall p | 0 <= p < PAGES ensures PageBit(words, width, p) == (p < FIRST_PAGE) { FreshBit(words, width, p); }
  }

  lemma FreshCount()
    ensures FreeCount(FreshPages()) == PAGES - FIRST_PAGE
  {
    var none := seq(PAGES, p => p < 0);
    AllFree(none);
    assert Allocate(none, 0, 1) == FreshPages();
    FreeCountAllocate(none, 0, 1);
  }

  /** Setting the bit of page p allocates page p and no other. */
  lemma SetPage(words: seq<nat>, width: nat, p: nat, pages: seq<bool>)
    requires Shows(words, width, pages) && p < PAGES
    ensures var w := WordOf(width, p);
            var words' := words[w := SetBit(words[w], BitOf(width, p))];
            Shows(words', width, Allocate(pages, p, 1))
  {
    var w := WordOf(width, p);
    var words' := words[w := SetBit(words[w], BitOf(width, p))];
    SetBitBits(words[w], BitOf(width, p), width, 0);
    forall q | 0 <= q < PAGES
      ensures PageBit(words', width, q) == (PageBit(words, width, q) || p <= q < p + 1)
    {
      SetBitBits(words[w], BitOf(width, p), width, BitOf(width, q));
      if WordOf(width, q) == w && BitOf(width, q) == BitOf(width, p) { PageAddress(width, p, q); }
    }
  }

  lemma PageAddress(width: nat, p: nat, q: nat)
    requires WordOf(width, p) == WordOf(width, q) && BitOf(width, p) == BitOf(width, q)
    ensures p == q
  {
  }

  // ----- the search

  lemma MapEnd(words: seq<nat>, width: nat, w: nat)
    requires IsMap(words, width) && w < |words|
    ensures var i := FirstPageOf(width, w);
            i + width <= PAGES && (w + 1 < |words| <==> i + width < PAGES) && FirstPageOf(width, w + 1) == i + width
  {
  }

  /** Word bitset - 1 is the one being looked at, and i is its first page. */
  ghost predicate AtWord(words: seq<nat>, width: nat, bitset: nat, i: nat) {
    IsMap(words, width) && 1 <= bitset <= |words| && i == FirstPageOf(width, bitset - 1) && i + width <= PAGES
  }

  /** First inner loop: skip allocated blocks. */
  method SkipAllocated(words: seq<nat>, width: nat, bitset: nat, i: nat, tmp: nat, ghost pages: seq<bool>, ghost pos: nat)
    returns (bitset': nat, i': nat, tmp': nat, ghost pos': nat)
    requires AtWord(words, width, bitset, i) && i <= pos < i + width
    requires Shows(words, width, pages) && Boundary(pages, pos) && Filled(pages, width, i, tmp, pos)
    ensures pos <= pos' <= PAGES && (forall p | pos <= p < pos' :: pages[p]) && Boundary(pages, pos')
    ensures if i' == PAGES then pages[PAGES - 1] else AtWord(words, width, bitset', i') && tmp' != Ones(width)
    ensures if i' == PAGES then pos' == PAGES else i' <= pos' < i' + width && Filled(pages, width, i', tmp', pos')
  {
    bitset', i', tmp', pos' := bitset, i, tmp, pos;
    while tmp' == Ones(width)
      invariant AtWord(words, width, bitset', i') && i' <= pos' < i' + width && pos <= pos'
      invariant Boundary(pages, pos') && Filled(pages, width, i', tmp', pos')
      invariant forall p | pos <= p < pos' :: pages[p]
      decreases PAGES - i'
    {
      SkipFullWord(pages, width, i', tmp', pos');
      MapEnd(words, width, bitset' - 1);
      i' := i' + width;
      pos' := i';
      if i' == PAGES { return; }
      LoadFilled(words, width, bitset', pages);
      tmp' := words[bitset'];
      bitset' := bitset' + 1;
    }
  }

  lemma FreeToEnd(pages: seq<bool>, page: nat, i: nat, tail: nat)
    requires FreeFrom(pages, tail) && (i >= tail || i >= |pages|)
    requires forall p | page <= p < i && p < |pages| :: !pages[p]
    ensures FreeFrom(pages, page)
  {
  }

  /** Second inner loop: skip free blocks, giving up once only free pages can follow. */
  method SkipFree(words: seq<nat>, width: nat, bitset: nat, i: nat, tmp: nat, page: nat, tail: nat, ghost pages: seq<bool>)
    returns (atTail: bool, bitset': nat, i': nat, tmp': nat)
    requires AtWord(words, width, bitset, i) && i <= page < i + width
    requires Shows(words, width, pages) && !pages[page] && Cleared(pages, width, i, tmp, page)
    requires FreeFrom(pages, tail)
    ensures atTail ==> FreeFrom(pages, page)
    ensures !atTail ==> AtWord(words, width, bitset', i') && page < i' + width && tmp' != 0
    ensures !atTail ==> Cleared(pages, width, i', tmp', page) && forall p | page <= p < i' :: !pages[p]
  {
    bitset', i', tmp' := bitset, i, tmp;
    while tmp' == 0
      invariant AtWord(words, width, bitset', i') && page < i' + width
      invariant Cleared(pages, width, i', tmp', page) && forall p | page <= p < i' :: !pages[p]
      decreases PAGES - i'
    {
      SkipEmptyWord(pages, width, i', tmp', page);
      MapEnd(words, width, bitset' - 1);
      i' := i' + width;
      if i' >= tail || i' == PAGES {
        FreeToEnd(pages, page, i', tail);
        return true, bitset', i', tmp';
      }
      LoadCleared(words, width, bitset', page, pages);
      tmp' := words[bitset'];
      bitset' := bitset' + 1;
    }
    atTail := false;
  }

  /** What one round of the search runs into. */
  datatype Scan = NoMore | Tail(page: nat) | Run(page: nat, len: nat)

  ghost predicate IsNextRun(pages: seq<bool>, pos: nat, scan: Scan)
    requires |pages| == PAGES
  {
    match scan
    case NoMore => pages[PAGES - 1] && forall p | pos <= p < PAGES :: pages[p]
    case Tail(page) =>
      0 < page && pos <= page && MaxRun(pages, page, PAGES - page) && forall p | pos <= p < page :: pages[p]
    case Run(page, len) =>
      0 < page && pos <= page && MaxRun(pages, page, len) && forall p | pos <= p < page :: pages[p]
  }

  /** Between two rounds pos is an allocated page of the current word, and tmp is that
      word with everything below pos marked allocated. */
  ghost predicate AtRunEnd(words: seq<nat>, width: nat, bitset: nat, i: nat, tmp: nat, pages: seq<bool>, pos: nat)
    requires |pages| == PAGES
  {
    && AtWord(words, width, bitset, i) && i <= pos < i + width
    && pages[pos] && Filled(pages, width, i, tmp, pos)
  }

  /** One round of the search: the first maximal run of free pages from pos on. */
  method NextRun(words: seq<nat>, width: nat, bitset: nat, i: nat, tmp: nat, tail: nat, ghost pages: seq<bool>, ghost pos: nat)
    returns (scan: Scan, bitset': nat, i': nat, tmp': nat)
    requires Shows(words, width, pages) && pages[0] && FreeFrom(pages, tail)
    requires AtRunEnd(words, width, bitset, i, tmp, pages, pos)
    ensures IsNextRun(pages, pos, scan)
    ensures scan.Run? ==> AtRunEnd(words, width, bitset', i', tmp', pages, scan.page + scan.len)
  {
    ghost var pos';
    bitset', i', tmp', pos' := SkipAllocated(words, width, bitset, i, tmp, pages, pos);
    if i' == PAGES {
      return NoMore, bitset', i', tmp';
    }
    var page;
    page, tmp' := FindZero(width, i', tmp', pages, pos');
    var atTail;
    atTail, bitset', i', tmp' := SkipFree(words, width, bitset', i', tmp', page, tail, pages);
    if atTail {
      return Tail(page), bitset', i', tmp';
    }
    var stop;
    stop, tmp' := FindOne(width, i', tmp', pages, page);
    scan := Run(page, stop - page);
    assert scan.page + scan.len == stop;
  }

  /** What the search decides, with the new value of the free_tail hint. */
  ghost predicate IsSearchResult(pages: seq<bool>, k: nat, tail: nat, found: bool, page: nat, len: nat, tail': nat)
    requires |pages| == PAGES
  {
    && (if found then IsBestFit(pages, k, page, len) else NoFit(pages, k))
    && (if found && page + len == PAGES then tail' == page + k
        else if found && len == k then tail' == tail
        else IsTailStart(pages, tail'))
  }

  lemma ResultMeans(pages: seq<bool>, k: nat, tail: nat, found: bool, page: nat, len: nat, tail': nat)
    requires |pages| == PAGES && IsSearchResult(pages, k, tail, found, page, len, tail')
    requires tail <= PAGES && FreeFrom(pages, tail)
    ensures found <==> !NoFit(pages, k)
    ensures found ==> IsBestFit(pages, k, page, len)
    ensures tail' <= PAGES && FreeFrom(pages, tail')
  {
  }

  /** The search leaves its loop at the end of the map or at the free tail. */
  lemma LastRound(pages: seq<bool>, k: nat, tail: nat, pos: nat, scan: Scan, best: int, bestLen: nat)
    requires |pages| == PAGES && IsNextRun(pages, pos, scan) && !scan.Run? && pos <= PAGES
    requires BestBelow(pages, k, pos, best, bestLen) && tail <= PAGES && FreeFrom(pages, tail)
    ensures var tail' := if scan.Tail? then scan.page else tail;
            if scan.Tail? && k <= PAGES - scan.page < bestLen
            then IsSearchResult(pages, k, tail, true, scan.page, PAGES - scan.page, scan.page + k)
            else if best > 0 then IsSearchResult(pages, k, tail, true, best, bestLen, tail')
            else IsSearchResult(pages, k, tail, false, 0, 0, tail')
  {
    var start := if scan.Tail? then scan.page else PAGES;
    BestBelowSkip(pages, k, pos, start, best, bestLen);
    if scan.Tail? {
      ExitTail(pages, k, start, best, bestLen);
    } else {
      ExitAtEnd(pages, k, best, bestLen);
    }
  }

  /** A run that ends inside the chunk either fits exactly or competes for best. */
  lemma RunRound(pages: seq<bool>, k: nat, tail: nat, pos: nat, page: nat, len: nat, best: int, bestLen: nat)
    requires |pages| == PAGES && IsNextRun(pages, pos, Run(page, len)) && pos <= PAGES && k < PAGES
    requires page + len < PAGES && BestBelow(pages, k, pos, best, bestLen)
    ensures if len == k then IsSearchResult(pages, k, tail, true, page, len, tail)
            else if k < len < bestLen then BestBelow(pages, k, page + len, page, len)
            else BestBelow(pages, k, page + len, best, bestLen)
    ensures pos < page + len
  {
    BestBelowSkip(pages, k, pos, page, best, bestLen);
    if len == k {
      ExitExact(pages, k, page, best, bestLen);
    } else {
      BestBelowRun(pages, k, page, len, best, bestLen);
    }
  }

  /** Best-Fit Search of zend_mm_alloc_pages; found and !found are its two exits. */
  method BestFitSearch(words: seq<nat>, width: nat, tail: nat, k: nat, ghost pages: seq<bool>)
    returns (found: bool, page: nat, tail': nat, ghost len: nat)
    requires Shows(words, width, pages) && 1 <= k < PAGES
    requires pages[0] && tail <= PAGES && FreeFrom(pages, tail)
    ensures found <==> !NoFit(pages, k)
    ensures found ==> exists n :: IsBestFit(pages, k, page, n)
    ensures tail' <= PAGES && FreeFrom(pages, tail')
    ensures IsSearchResult(pages, k, tail, found, page, len, tail')
  {
    var best: int, bestLen: nat := -1, PAGES;
    LoadFilled(words, width, 0, pages);
    var bitset: nat, i: nat, tmp: nat := 1, 0, words[0];
    ghost var pos: nat := 0;
    while true
      invariant BestBelow(pages, k, pos, best, bestLen) && pos <= PAGES
      invariant AtRunEnd(words, width, bitset, i, tmp, pages, pos)
      decreases PAGES - pos
    {
      var scan;
      scan, bitset, i, tmp := NextRun(words, width, bitset, i, tmp, tail, pages, pos);
      if !scan.Run? {
        found, page, tail', len := Conclude(k, tail, scan, best, bestLen, pages, pos);
        break;
      }
      RunRound(pages, k, tail, pos, scan.page, scan.len, best, bestLen);
      if scan.len >= k {
        if scan.len == k {
          found, page, tail', len := true, scan.page, tail, scan.len;
          break;
        } else if scan.len < bestLen {
          bestLen := scan.len;
          best := scan.page;
        }
      }
      pos := scan.page + scan.len;
    }
    ResultMeans(pages, k, tail, found, page, len, tail');
  }

  /** The end of the search: take the free tail, or the best run before it, or give up. */
  method Conclude(k: nat, tail: nat, scan: Scan, best: int, bestLen: nat, ghost pages: seq<bool>, ghost pos: nat)
    returns (found: bool, page: nat, tail': nat, ghost len: nat)
    requires |pages| == PAGES && IsNextRun(pages, pos, scan) && !scan.Run? && pos <= PAGES
    requires BestBelow(pages, k, pos, best, bestLen) && tail <= PAGES && FreeFrom(pages, tail)
    ensures IsSearchResult(pages, k, tail, found, page, len, tail')
  {
    LastRound(pages, k, tail, pos, scan, best, bestLen);
    tail' := tail;
    if scan.Tail? {
      if PAGES - scan.page >= k && PAGES - scan.page < bestLen {
        return true, scan.page, scan.page + k, PAGES - scan.page;
      }
      // the free tail really starts here
      tail' := scan.page;
    }
    if best > 0 {
      found, page, len := true, best, bestLen;
    } else {
      found, page, len := false, 0, 0;
    }
  }

  /** The entries of the page map for a small run: the first says which bin, the others also how far they are. */
  ghost function SmallMarks(marks: seq<PageInfo>, page: nat, bin: nat, count: nat): (r: seq<PageInfo>)
    ensures |r| == |marks|
  {
    seq(|marks|, p requires 0 <= p < |marks| =>
      if p == page then SRun(bin) else if page < p < page + count then NRun(bin, p - page) else marks[p])
  }

  /** Every entry of the run leads back to its first page, and tells the bin; no other entry changes. */
  lemma LeadsBack(marks: seq<PageInfo>, page: nat, bin: nat, count: nat, p: nat)
    requires p < |marks| && 1 <= count
    ensures var m := SmallMarks(marks, page, bin, count)[p];
            && (p == page ==> m == SRun(bin))
            && (page < p < page + count ==> m.NRun? && m.bin == bin && m.offset > 0 && p - m.offset == page)
            && (p < page || page + count <= p ==> m == marks[p])
  {
  }

  class Chunk {
    const address: nat
    const width: nat            // ZEND_MM_BITSET_LEN
    const freeMap: array<nat>
    const info: array<PageInfo>
    var next: Chunk?
    var prev: Chunk?
    var freePages: nat
    var freeTail: nat
    ghost var pages: seq<bool>      // what freeMap says: true for an allocated page
    ghost var marks: seq<PageInfo>  // what info says

    ghost predicate Shape()
      reads freeMap
    {
      IsMap(freeMap[..], width) && info.Length == PAGES
    }

    /** What every allocation keeps: page 0 is taken, the hint is right, the count is right. */
    ghost predicate Valid()
      reads this`freePages, this`freeTail, this`pages, this`marks, freeMap, info
    {
      && Shape() && Shows(freeMap[..], width, pages) && marks == info[..]
      && pages[0] && 1 <= freeTail <= PAGES && FreeFrom(pages, freeTail)
      && freePages == FreeCount(pages)
    }

    /** A chunk as zend_mm_chunk_init leaves it: only page 0, which holds the header, is taken. */
    constructor (width: nat, address: nat)
      requires width == 32 || width == 64
      ensures Valid() && this.width == width && this.address == address && fresh(freeMap) && fresh(info)
      ensures pages == FreshPages() && freeTail == FIRST_PAGE && marks == FreshInfo()
    {
      this.width, this.address := width, address;
      freeMap := new nat[if width == 32 then 16 else 8](w => if w == 0 then 1 else 0);
      info := new PageInfo[PAGES](p => if p == 0 then LRun(FIRST_PAGE) else FreePage);
      next, prev := null, null;
      freePages := PAGES - FIRST_PAGE;
      freeTail := FIRST_PAGE;
      pages, marks := FreshPages(), FreshInfo();
      new;
      FreshWords(freeMap[..], width);
      FreshCount();
    }

    /** The search, on this chunk: it changes nothing but the hint. */
    method BestFit(k: nat) returns (found: bool, page: nat, ghost len: nat)
      requires Valid() && 1 <= k < PAGES
      modifies this`freeTail
      ensures Valid()
      ensures IsSearchResult(pages, k, old(freeTail), found, page, len, freeTail)
    {
      found, page, freeTail, len := BestFitSearch(freeMap[..], width, freeTail, k, pages);
    }

    /** zend_mm_bitset_set_range. */
    method SetRange(page: nat, k: nat)
      requires Shows(freeMap[..], width, pages) && page + k <= PAGES
      modifies freeMap, this`pages
      ensures Shows(freeMap[..], width, pages) && pages == Allocate(old(pages), page, k)
    {
      for p := page to page + k
        invariant Shows(freeMap[..], width, pages) && pages == Allocate(old(pages), page, p - page)
      {
        SetPage(freeMap[..], width, p, pages);
        var w := WordOf(width, p);
        ghost var words := freeMap[..];
        freeMap[w] := SetBit(freeMap[w], BitOf(width, p));
        assert freeMap[..] == words[w := freeMap[w]];
        pages := Allocate(pages, p, 1);
      }
    }

    /** The code at found: mark [page, page + k) as one allocated run. */
    method Take(page: nat, k: nat)
      requires Valid() && 1 <= k && 1 <= page && FreeWindow(pages, page, k)
      requires page + k <= freeTail || page == freeTail
      modifies this`freePages, this`freeTail, this`pages, this`marks, freeMap, info
      ensures Valid() && pages == Allocate(old(pages), page, k)
      ensures freeTail == if old(freeTail) == page then page + k else old(freeTail)
      ensures |old(marks)| == PAGES && marks == old(marks)[page := LRun(k)]
    {
      FreeCountAllocate(pages, page, k);
      FreeCountOfRun(pages, page, k);
      freePages := freePages - k;
      SetRange(page, k);
      info[page] := LRun(k);
      marks := marks[page := LRun(k)];
      if page == freeTail {
        freeTail := page + k;
      }
    }

    /** zend_mm_chunk_init on a chunk that was used before. */
    method Reset()
      requires Shape()
      modifies this`freePages, this`freeTail, this`pages, this`marks, freeMap, info
      ensures Valid() && pages == FreshPages() && freeTail == FIRST_PAGE && marks == FreshInfo()
    {
      forall w | 0 <= w < freeMap.Length { freeMap[w] := if w == 0 then 1 else 0; }
      forall p | 0 <= p < info.Length { info[p] := if p == 0 then LRun(FIRST_PAGE) else FreePage; }
      freePages := PAGES - FIRST_PAGE;
      freeTail := FIRST_PAGE;
      pages, marks := FreshPages(), FreshInfo();
      FreshWords(freeMap[..], width);
      FreshCount();
    }

    /** The entries that zend_mm_alloc_small_slow makes for a run of `count` pages. */
    method MarkSmall(page: nat, bin: nat, count: nat)
      requires Valid() && 1 <= count && page + count <= PAGES
      modifies this`marks, info
      ensures Valid() && marks == SmallMarks(old(marks), page, bin, count)
    {
      info[page] := SRun(bin);
      if count > 1 {
        var i := 1;
        while i < count
          invariant 1 <= i <= count
          invariant forall p | 0 <= p < PAGES :: info[p] == SmallMarks(old(marks), page, bin, i)[p]
        {
          info[page + i] := NRun(bin, i);
          i := i + 1;
        }
      }
      marks := info[..];
    }
  }
}
