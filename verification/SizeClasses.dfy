/** Size classes of small allocations: which bin a request goes to, and what that bin holds. */
module SizeClasses {
  import opened PageMap
  import opened Words

  function BitLength(x: nat): nat {
    if x == 0 then 0 else 1 + BitLength(x / 2)
  }

  /** t2 of zend_mm_small_size_to_bin: the shift of a large request. */
  function LargeShift(size: nat): (t2: nat)
    requires size > 64
    ensures t2 >= 4
  {
    BitLengthAtLeast(size - 1, 6);
    BitLength(size - 1) - 3
  }

  /** The bin of a request, for requests of any size. */
  function Bin(size: nat): nat {
    if size <= 64 then (if size == 0 then 0 else (size - 1) / 8)
    else ShiftRight(size - 1, LargeShift(size)) + 4 * (LargeShift(size) - 3)
  }

  /** w << k. */
  function ShiftLeft(w: nat, k: nat): nat {
    if k == 0 then w else 2 * ShiftLeft(w, k - 1)
  }

  /** How many bytes an element of the bin has: from bin 8 on there are four classes for every power of two. */
  function ClassSize(bin: nat): nat {
    if bin < 8 then 8 * (bin + 1) else ShiftLeft(bin % 4 + 5, bin / 4 + 2)
  }

  // ----- the two functions of the source

  /** zend_mm_small_size_to_bit, portable branch. */
  method SmallSizeToBit(size: nat) returns (n: nat)
    ensures (n >= 1 && Pow2(n - 1) <= size < Pow2(n)) <==> 1 <= size <= 0xffff
    ensures 1 <= size <= 0xffff ==> n == BitLength(size)
    ensures size > 0xffff ==> n == 16
  {
    Pow2Table();
    var s := size;
    n := 16;
    if s <= 0x00ff { n := n - 8; s := s * 0x100; }   // size << 8
    if s <= 0x0fff { n := n - 4; s := s * 0x10; }    // size << 4
    if s <= 0x3fff { n := n - 2; s := s * 4; }       // size << 2
    if s <= 0x7fff { n := n - 1; }
    if 1 <= size <= 0xffff { BitLengthUnique(size, n); }
  }

  lemma Pow2Table()
    ensures Pow2(0) == 1 && Pow2(1) == 2 && Pow2(2) == 4 && Pow2(3) == 8 && Pow2(4) == 0x10
    ensures Pow2(5) == 0x20 && Pow2(6) == 0x40 && Pow2(7) == 0x80 && Pow2(8) == 0x100
    ensures Pow2(9) == 0x200 && Pow2(10) == 0x400 && Pow2(11) == 0x800 && Pow2(12) == 0x1000
    ensures Pow2(13) == 0x2000 && Pow2(14) == 0x4000 && Pow2(15) == 0x8000 && Pow2(16) == 0x1_0000
  {
  }

  /** zend_mm_small_size_to_bin.  The bit count it uses is wrong above 0xffff, but the bin is
      still right up to 0x1_2000. */
  method SmallSizeToBin(size: nat) returns (bin: nat)
    requires size <= 0x8000_0000
    ensures bin == Bin(size) <==> size <= 0x1_2000
  {
    if size <= 64 {
      // size - !!size, so that size == 0 is served
      bin := (if size == 0 then 0 else size - 1) / 8;
    } else {
      var t1 := size - 1;
      var t2 := SmallSizeToBit(t1);
      t2 := t2 - 3;
      if size <= 0x1_0000 { assert t2 == LargeShift(size); } else { BeyondBits(size); }
      t1 := ShiftRight(t1, t2);
      t2 := t2 - 3;
      t2 := t2 * 4;
      bin := t1 + t2;
    }
  }

  /** With the shift stuck at 13 the result is too large, except for the first size class. */
  lemma BeyondBits(size: nat)
    requires size > 0x1_0000
    ensures ShiftRight(size - 1, 13) + 40 == Bin(size) <==> size <= 0x1_2000
  {
    var t1, t2 := size - 1, LargeShift(size);
    Pow2Table();
    BitLengthAtLeast(t1, 16);
    var d, y := t2 - 13, ShiftRight(t1, 13);
    ShiftRightTwice(t1, 13, d);
    LargeQuotient(t1, t2);
    ShiftRightRange(t1, 13);
    ShiftRightRange(y, d);
    ShiftThirteen(y);
    ShiftThirteen(y + 1);
    if d == 1 {
      assert ShiftLeft(y / 2, 1) <= y < ShiftLeft(y / 2 + 1, 1);
    } else {
      ShiftGrows(ShiftRight(y, d), d);
    }
  }

  lemma ShiftThirteen(y: nat)
    ensures ShiftLeft(y, 13) == 0x2000 * y
  {
    ShiftTable(y);
    assert ShiftLeft(y, 13) == 2 * ShiftLeft(y, 12) == 4 * ShiftLeft(y, 11) == 8 * ShiftLeft(y, 10);
  }

  lemma {:induction false} ShiftGrows(q: nat, d: nat)
    requires q >= 4 && d >= 2
    ensures ShiftLeft(q, d) >= 4 * q && ShiftLeft(q, d) > 7 + 4 * d
  {
    if d > 2 { ShiftGrows(q, d - 1); } else { assert ShiftLeft(q, d) == 2 * ShiftLeft(q, d - 1) == 4 * ShiftLeft(q, d - 2); }
  }

  // ----- bit lengths

  lemma {:induction false} BitLengthRange(x: nat)
    ensures x > 0 ==> BitLength(x) >= 1 && Pow2(BitLength(x) - 1) <= x < Pow2(BitLength(x))
  {
    if x > 1 { BitLengthRange(x / 2); }
  }

  lemma {:induction false} BitLengthAtLeast(x: nat, n: nat)
    requires Pow2(n) <= x
    ensures BitLength(x) > n
  {
    if n > 0 { BitLengthAtLeast(x / 2, n - 1); }
  }

  lemma {:induction false} BitLengthUnique(x: nat, n: nat)
    requires n >= 1 && Pow2(n - 1) <= x < Pow2(n)
    ensures n == BitLength(x)
  {
    if n > 1 { BitLengthUnique(x / 2, n - 1); }
  }

  // ----- shifts

  lemma {:induction false} ShiftLinear(a: nat, b: nat, k: nat)
    ensures ShiftLeft(a + b, k) == ShiftLeft(a, k) + ShiftLeft(b, k)
  {
    if k > 0 { ShiftLinear(a, b, k - 1); }
  }

  lemma {:induction false} ShiftPositive(a: nat, k: nat)
    requires a > 0
    ensures ShiftLeft(a, k) > 0
  {
    if k > 0 { ShiftPositive(a, k - 1); }
  }

  lemma ShiftIncreases(a: nat, b: nat, k: nat)
    requires a < b
    ensures ShiftLeft(a, k) < ShiftLeft(b, k)
  {
    ShiftLinear(a, b - a, k);
    ShiftPositive(b - a, k);
  }

  lemma ShiftOneMore(a: nat, k: nat)
    ensures ShiftLeft(2 * a, k) == ShiftLeft(a, k + 1)
  {
    ShiftLinear(a, a, k);
  }

  lemma {:induction false} ShiftRightRange(x: nat, k: nat)
    ensures ShiftLeft(ShiftRight(x, k), k) <= x < ShiftLeft(ShiftRight(x, k) + 1, k)
  {
    if k > 0 { ShiftRightRange(x / 2, k - 1); }
  }

  lemma {:induction false} ShiftRightTwice(x: nat, k: nat, l: nat)
    ensures ShiftRight(ShiftRight(x, k), l) == ShiftRight(x, k + l)
  {
    if k > 0 { ShiftRightTwice(x / 2, k - 1, l); }
  }

  lemma {:induction false} ShiftRightLength(x: nat, k: nat)
    requires k <= BitLength(x)
    ensures BitLength(ShiftRight(x, k)) == BitLength(x) - k
  {
    if k > 0 { ShiftRightLength(x / 2, k - 1); }
  }

  /** The three leading bits. */
  lemma LargeQuotient(x: nat, k: nat)
    requires BitLength(x) == k + 3
    ensures 4 <= ShiftRight(x, k) <= 7
  {
    ShiftRightLength(x, k);
    var q := ShiftRight(x, k);
    assert BitLength(q) == 1 + BitLength(q / 2) && BitLength(q / 2) == 1 + BitLength(q / 2 / 2);
  }

  lemma ShiftTable(x: nat)
    ensures ShiftLeft(x, 4) == 16 * x && ShiftLeft(x, 5) == 32 * x && ShiftLeft(x, 6) == 64 * x
    ensures ShiftLeft(x, 7) == 128 * x && ShiftLeft(x, 8) == 256 * x && ShiftLeft(x, 9) == 512 * x
    ensures ShiftLeft(x, 10) == 1024 * x
  {
    assert ShiftLeft(x, 3) == 2 * ShiftLeft(x, 2) == 4 * ShiftLeft(x, 1);
    assert ShiftLeft(x, 6) == 2 * ShiftLeft(x, 5) == 4 * ShiftLeft(x, 4) == 8 * ShiftLeft(x, 3);
    assert ShiftLeft(x, 9) == 2 * ShiftLeft(x, 8) == 4 * ShiftLeft(x, 7);
  }

  // ----- the classes

  lemma ClassStep(b: nat)
    ensures ClassSize(b) < ClassSize(b + 1)
  {
    if b == 7 {
      ShiftTable(5);
    } else if b > 7 {
      var e := b / 4 + 2;
      if b % 4 == 3 {
        ShiftIncreases(8, 10, e);
        ShiftOneMore(5, e);
        ClassAt(b + 1, 5, e + 1);
      } else {
        ShiftIncreases(b % 4 + 5, b % 4 + 6, e);
        ClassAt(b + 1, b % 4 + 6, e);
      }
    }
  }

  lemma ClassAt(bin: nat, q: nat, e: nat)
    requires bin >= 8 && bin % 4 == q - 5 && bin / 4 == e - 2
    ensures ClassSize(bin) == ShiftLeft(q, e)
  {
  }

  lemma {:induction false} ClassMonotone(b: nat, c: nat)
    requires b < c
    ensures ClassSize(b) < ClassSize(c)
  {
    ClassStep(c - 1);
    if b < c - 1 { ClassMonotone(b, c - 1); }
  }

  /** A large request: the class is ((t1 >> t2) + 1) << t2, and the class before it is too small. */
  lemma LargeClass(size: nat)
    requires size > 64
    ensures var t2 := LargeShift(size);
            var q := ShiftRight(size - 1, t2);
            && 4 <= q <= 7 && Bin(size) == q + 4 * (t2 - 3)
            && ClassSize(Bin(size)) == ShiftLeft(q + 1, t2)
            && ClassSize(Bin(size) - 1) == ShiftLeft(q, t2)
            && ShiftLeft(q, t2) < size <= ShiftLeft(q + 1, t2)
  {
    var t2 := LargeShift(size);
    LargeQuotient(size - 1, t2);
    ShiftRightRange(size - 1, t2);
    LargeClassSizes(ShiftRight(size - 1, t2), t2);
  }

  lemma LargeClassSizes(q: nat, t2: nat)
    requires 4 <= q <= 7 && 4 <= t2
    ensures ClassSize(q + 4 * (t2 - 3)) == ShiftLeft(q + 1, t2)
    ensures ClassSize(q + 4 * (t2 - 3) - 1) == ShiftLeft(q, t2)
  {
    var bin := q + 4 * (t2 - 3);
    ClassAt(bin, q + 1, t2);
    if q > 4 {
      ClassAt(bin - 1, q, t2);
    } else if t2 > 4 {
      ClassAt(bin - 1, 8, t2 - 1);
      ShiftOneMore(4, t2 - 1);
    } else {
      ShiftTable(4);
    }
  }

  /** The bin is the least one whose elements hold the request. */
  lemma LeastClass(size: nat)
    ensures size <= ClassSize(Bin(size))
    ensures Bin(size) > 0 ==> ClassSize(Bin(size) - 1) < size
  {
    if size > 64 { LargeClass(size); }
  }

  /** A request goes to bin b or below exactly when b's elements hold it. */
  lemma BinIsLeast(size: nat, b: nat)
    ensures Bin(size) <= b <==> size <= ClassSize(b)
  {
    LeastClass(size);
    if Bin(size) < b { ClassMonotone(Bin(size), b); }
    if b + 1 < Bin(size) { ClassMonotone(b, Bin(size) - 1); }
  }

  lemma BinMonotone(size: nat, size': nat)
    requires size <= size'
    ensures Bin(size) <= Bin(size')
  {
    LeastClass(size');
    BinIsLeast(size, Bin(size'));
  }

  /** Every class is the bin of its own size, so no class is skipped. */
  lemma BinOfClass(b: nat)
    ensures Bin(ClassSize(b)) == b
  {
    var s := ClassSize(b);
    BinIsLeast(s, b);
    LeastClass(s);
    if Bin(s) < b { ClassMonotone(Bin(s), b); }
  }

  /** Above 64 bytes less than a quarter of the request is wasted. */
  lemma WasteBound(size: nat)
    requires size > 64
    ensures 4 * (ClassSize(Bin(size)) - size) < size
  {
    LargeClass(size);
    var t2 := LargeShift(size);
    var q := ShiftRight(size - 1, t2);
    ShiftLinear(q, 1, t2);
    FourTimes(t2);
    if q > 4 { ShiftIncreases(4, q, t2); }
  }

  lemma FourTimes(k: nat)
    ensures ShiftLeft(4, k) == 4 * ShiftLeft(1, k)
  {
    ShiftLinear(2, 2, k);
    ShiftLinear(1, 1, k);
  }

  // ----- ZEND_MM_BINS_INFO

  /** ZEND_MM_BINS */
  const BINS := 30

  const BIN_DATA_SIZE: seq<nat> := [
    8, 16, 24, 32, 40, 48, 56, 64, 80, 96, 112, 128, 160, 192, 224, 256, 320, 384, 448, 512,
    640, 768, 896, 1024, 1280, 1536, 1792, 2048, 2560, 3072]

  const BIN_ELEMENTS: seq<nat> := [
    512, 256, 170, 128, 102, 85, 73, 64, 51, 42, 36, 32, 25, 21, 18, 16, 64, 32, 9, 8,
    32, 16, 9, 8, 16, 8, 16, 8, 8, 4]

  const BIN_PAGES: seq<nat> := [
    1, 1, 1, 1, 1, 1, 1, 1, 1, 1, 1, 1, 1, 1, 1, 1, 5, 3, 1, 1,
    5, 3, 2, 2, 5, 3, 7, 4, 5, 3]

  /** The formula and the table name the same classes. */
  lemma TableAgrees(b: nat)
    requires b < BINS
    ensures |BIN_DATA_SIZE| == BINS && BIN_DATA_SIZE[b] == ClassSize(b)
  {
    if b >= 8 {
      var q, e := b % 4 + 5, b / 4 + 2;
      ShiftTable(q);
      ClassAt(b, q, e);
      if e <= 6 { assert e == 4 || e == 5 || e == 6; } else { assert e == 7 || e == 8 || e == 9; }
      assert q == 5 || q == 6 || q == 7 || q == 8;
    }
  }

  /** A bin's elements fit in its pages, and there is no room for one more. */
  lemma TableFillsPages(b: nat)
    requires b < BINS
    ensures |BIN_DATA_SIZE| == |BIN_ELEMENTS| == |BIN_PAGES| == BINS
    ensures 4 <= BIN_ELEMENTS[b] && 8 <= BIN_DATA_SIZE[b] && 1 <= BIN_PAGES[b]
    ensures BIN_ELEMENTS[b] * BIN_DATA_SIZE[b] <= BIN_PAGES[b] * PAGE_SIZE
    ensures BIN_PAGES[b] * PAGE_SIZE < (BIN_ELEMENTS[b] + 1) * BIN_DATA_SIZE[b]
  {
  }

  /** ZEND_MM_MAX_SMALL_SIZE */
  const MAX_SMALL_SIZE := 3072

  /** Every small request has a bin of the table, the first one with large enough elements. */
  lemma SmallRequestFits(size: nat)
    requires size <= MAX_SMALL_SIZE
    ensures |BIN_DATA_SIZE| == BINS && Bin(size) < BINS && size <= BIN_DATA_SIZE[Bin(size)]
    ensures forall b | 0 <= b < Bin(size) :: BIN_DATA_SIZE[b] < size
  {
    TableAgrees(BINS - 1);
    BinIsLeast(size, BINS - 1);
    LeastClass(size);
    TableAgrees(Bin(size));
    forall b | 0 <= b < Bin(size) ensures BIN_DATA_SIZE[b] < size {
      TableAgrees(b);
      BinIsLeast(size, b);
    }
  }
}
