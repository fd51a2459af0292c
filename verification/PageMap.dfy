/** The pages of one chunk, as a sequence with true for an allocated page, and what
    "best fit" means on it page by page. */
module PageMap {

  /** ZEND_MM_PAGES */
  const PAGES := 512

  /** ZEND_MM_PAGE_SIZE */
  const PAGE_SIZE := 4096

  /** A maximal run of n free pages starting at page s. */
  ghost predicate MaxRun(pages: seq<bool>, s: int, n: int) {
    && 0 <= s && 0 < n && s + n <= |pages|
    && (forall p | s <= p < s + n :: !pages[p])
    && (s == 0 || pages[s - 1])
    && (s + n == |pages| || pages[s + n])
  }

  /** k consecutive free pages starting at page s. */
  ghost predicate FreeWindow(pages: seq<bool>, s: int, k: int) {
    0 <= s && s + k <= |pages| && forall p | s <= p < s + k :: !pages[p]
  }

  /** The first among the shortest maximal runs that hold k pages. */
  ghost predicate IsBestFit(pages: seq<bool>, k: nat, s: nat, n: nat) {
    && MaxRun(pages, s, n) && k <= n
    && forall s', n' | MaxRun(pages, s', n') && k <= n' :: n < n' || (n == n' && s <= s')
  }

  /** Which run that is, page by page: nothing to either side of it is free, and every other run that is
      as long as asked for is longer, or as long and further right. */
  lemma BestFitPlain(pages: seq<bool>, k: nat, s: nat, n: nat, s': nat, n': nat)
    requires IsBestFit(pages, k, s, n)
    requires 0 < n' && k <= n' && s' + n' <= |pages| && (forall p | s' <= p < s' + n' :: !pages[p])
    requires (s' > 0 ==> pages[s' - 1]) && (s' + n' < |pages| ==> pages[s' + n'])
    ensures k <= n && 0 < n && s + n <= |pages| && (forall p | s <= p < s + n :: !pages[p])
    ensures (s > 0 ==> pages[s - 1]) && (s + n < |pages| ==> pages[s + n])
    ensures n < n' || (n == n' && s <= s')
  {
    assert MaxRun(pages, s', n');
  }

  ghost predicate NoFit(pages: seq<bool>, k: nat) {
    forall s, n | MaxRun(pages, s, n) :: n < k
  }

  /** Every page from t on is free. */
  ghost predicate FreeFrom(pages: seq<bool>, t: nat) {
    forall p | t <= p < |pages| :: !pages[p]
  }

  /** t is where the free tail starts: |pages| when the last page is allocated. */
  ghost predicate IsTailStart(pages: seq<bool>, t: nat) {
    t <= |pages| && FreeFrom(pages, t) && (t == 0 || pages[t - 1])
  }

  function FreeCount(pages: seq<bool>): nat {
    if |pages| == 0 then 0 else (if pages[|pages| - 1] then 0 else 1) + FreeCount(pages[..|pages| - 1])
  }

  /** The pages after allocating [s, s + k). */
  function Allocate(pages: seq<bool>, s: nat, k: nat): (r: seq<bool>)
    ensures |r| == |pages|
  {
    seq(|pages|, p requires 0 <= p < |pages| => pages[p] || s <= p < s + k)
  }

  // ----- runs

  /** A window of k free pages lies in some maximal run of at least k pages. */
  lemma WindowInRun(pages: seq<bool>, s: nat, k: nat)
    requires 0 < k && FreeWindow(pages, s, k)
    ensures exists s', n :: MaxRun(pages, s', n) && k <= n
  {
    var lo: nat := s;
    while lo > 0 && !pages[lo - 1]
      invariant lo <= s && FreeWindow(pages, lo, s + k - lo)
    {
      lo := lo - 1;
    }
    var hi: nat := s + k;
    while hi < |pages| && !pages[hi]
      invariant s + k <= hi <= |pages| && FreeWindow(pages, lo, hi - lo)
    {
      hi := hi + 1;
    }
    assert MaxRun(pages, lo, hi - lo);
  }

  /** NoFit means that no k consecutive pages are free. */
  lemma NoFitMeansNoWindow(pages: seq<bool>, k: nat)
    requires 0 < k
    ensures NoFit(pages, k) <==> forall s :: !FreeWindow(pages, s, k)
  {
    if NoFit(pages, k) {
      forall s ensures !FreeWindow(pages, s, k) {
        if FreeWindow(pages, s, k) { WindowInRun(pages, s, k); }
      }
    } else {
      var s, n :| MaxRun(pages, s, n) && n >= k;
      assert FreeWindow(pages, s, k);
    }
  }

  lemma {:induction false} FreeCountOfRun(pages: seq<bool>, s: nat, n: nat)
    requires s + n <= |pages| && forall p | s <= p < s + n :: !pages[p]
    ensures n <= FreeCount(pages)
  {
    if n > 0 {
      var rest := pages[..|pages| - 1];
      FreeCountOfRun(rest, s, if s + n == |pages| then n - 1 else n);
    }
  }

  lemma {:induction false} FreeCountAllocate(pages: seq<bool>, s: nat, k: nat)
    requires s + k <= |pages| && forall p | s <= p < s + k :: !pages[p]
    ensures FreeCount(Allocate(pages, s, k)) == FreeCount(pages) - k
  {
    var after := Allocate(pages, s, k);
    if k == 0 {
      assert after == pages;
    } else if s + k == |pages| {
      FreeCountAllocate(pages[..|pages| - 1], s, k - 1);
      assert after[..|pages| - 1] == Allocate(pages[..|pages| - 1], s, k - 1);
    } else {
      FreeCountAllocate(pages[..|pages| - 1], s, k);
      assert after[..|pages| - 1] == Allocate(pages[..|pages| - 1], s, k);
    }
  }

  lemma {:induction false} AllFree(pages: seq<bool>)
    requires forall p | 0 <= p < |pages| :: !pages[p]
    ensures FreeCount(pages) == |pages|
  {
    if pages != [] { AllFree(pages[..|pages| - 1]); }
  }

  lemma TooFewFreeNoFit(pages: seq<bool>, k: nat)
    requires FreeCount(pages) < k
    ensures NoFit(pages, k)
  {
    forall s, n | MaxRun(pages, s, n) ensures n < k { FreeCountOfRun(pages, s, n); }
  }

  /** Best fit is a function of the pages: start and length are determined. */
  lemma BestFitUnique(pages: seq<bool>, k: nat, s: nat, n: nat, s': nat, n': nat)
    requires IsBestFit(pages, k, s, n) && IsBestFit(pages, k, s', n')
    ensures s == s' && n == n'
  {
  }

  /** Where the search stands after every run starting before `pos` was looked at. */
  ghost predicate BestBelow(pages: seq<bool>, k: nat, pos: nat, best: int, bestLen: nat) {
    if best == -1 then
      bestLen == |pages| && forall s, n | MaxRun(pages, s, n) && s < pos :: n < k
    else
      && 0 < best < pos && k < bestLen && MaxRun(pages, best, bestLen)
      && forall s, n | MaxRun(pages, s, n) && s < pos && k <= n ::
           bestLen < n || (bestLen == n && best <= s)
  }

  /** No maximal run crosses pos. */
  ghost predicate Boundary(pages: seq<bool>, pos: nat)
    requires pos <= |pages|
  {
    pos == 0 || pages[pos - 1] || pos == |pages| || pages[pos]
  }

  lemma RunUnique(pages: seq<bool>, s: nat, n: nat, s': nat, n': nat)
    requires MaxRun(pages, s, n) && MaxRun(pages, s', n') && s <= s' < s + n
    ensures s == s' && n == n'
  {
    assert s' == 0 || pages[s' - 1];
    assert s + n == |pages| || pages[s + n];
    assert s' + n' == |pages| || pages[s' + n'];
  }

  lemma BestBelowSkip(pages: seq<bool>, k: nat, pos: nat, pos': nat, best: int, bestLen: nat)
    requires BestBelow(pages, k, pos, best, bestLen)
    requires pos <= pos' <= |pages| && forall p | pos <= p < pos' :: pages[p]
    ensures BestBelow(pages, k, pos', best, bestLen)
  {
    forall s, n | MaxRun(pages, s, n) && s < pos' ensures s < pos { assert !pages[s]; }
  }

  /** Looking at the one run that starts in [start, start + len). */
  lemma BestBelowRun(pages: seq<bool>, k: nat, start: nat, len: nat, best: int, bestLen: nat)
    requires BestBelow(pages, k, start, best, bestLen) && MaxRun(pages, start, len)
    requires len != k && len < |pages| && 0 < start
    ensures if k < len && len < bestLen then BestBelow(pages, k, start + len, start, len)
            else BestBelow(pages, k, start + len, best, bestLen)
  {
    forall s, n | MaxRun(pages, s, n) && start <= s < start + len ensures s == start && n == len {
      RunUnique(pages, start, len, s, n);
    }
  }

  // ----- the three exits of the search

  lemma ExitAtEnd(pages: seq<bool>, k: nat, best: int, bestLen: nat)
    requires BestBelow(pages, k, |pages|, best, bestLen)
    ensures if best > 0 then IsBestFit(pages, k, best, bestLen) else NoFit(pages, k)
  {
  }

  lemma ExitExact(pages: seq<bool>, k: nat, start: nat, best: int, bestLen: nat)
    requires BestBelow(pages, k, start, best, bestLen) && MaxRun(pages, start, k) && k < |pages|
    ensures IsBestFit(pages, k, start, k)
  {
  }

  /** The run that reaches the end of the chunk wins only against strictly longer ones. */
  lemma ExitTail(pages: seq<bool>, k: nat, start: nat, best: int, bestLen: nat)
    requires BestBelow(pages, k, start, best, bestLen) && 0 < start < |pages|
    requires MaxRun(pages, start, |pages| - start)
    ensures if k <= |pages| - start < bestLen then IsBestFit(pages, k, start, |pages| - start)
            else if best > 0 then IsBestFit(pages, k, best, bestLen)
            else NoFit(pages, k)
  {
    forall s, n | MaxRun(pages, s, n) && start <= s ensures s == start && n == |pages| - start {
      RunUnique(pages, start, |pages| - start, s, n);
    }
  }
}
