/** Machine words as natural numbers, with the bit operations the page bitmap is
    searched by.  A word of width L is a number below Pow2(L); L is 32 or 64. */
module Words {

  function Pow2(n: nat): (r: nat)
    ensures r >= 1
  {
    if n == 0 then 1 else 2 * Pow2(n - 1)
  }

  /** The all-ones word, (zend_mm_bitset)-1. */
  function Ones(width: nat): nat {
    Pow2(width) - 1
  }

  predicate Bit(w: nat, k: nat) {
    if k == 0 then w % 2 == 1 else Bit(w / 2, k - 1)
  }

  /** Bitwise and, one binary digit at a time. */
  function And(a: nat, b: nat): nat {
    if a == 0 || b == 0 then 0
    else 2 * And(a / 2, b / 2) + (if a % 2 == 1 && b % 2 == 1 then 1 else 0)
  }

  /** Bitwise or, one binary digit at a time. */
  function Or(a: nat, b: nat): nat
    decreases a + b
  {
    if a == 0 then b
    else if b == 0 then a
    else 2 * Or(a / 2, b / 2) + (if a % 2 == 1 || b % 2 == 1 then 1 else 0)
  }

  /** w >> k. */
  function ShiftRight(w: nat, k: nat): nat {
    if k == 0 then w else ShiftRight(w / 2, k - 1)
  }

  function TrailingOnes(w: nat): nat {
    if w % 2 == 1 then 1 + TrailingOnes(w / 2) else 0
  }

  function TrailingZeros(w: nat): nat
    requires w > 0
  {
    if w % 2 == 0 then 1 + TrailingZeros(w / 2) else 0
  }

  // ----- what And and Or do to single bits

  lemma {:induction false} ZeroHasNoBits(k: nat)
    ensures !Bit(0, k)
  {
    if k > 0 { ZeroHasNoBits(k - 1); }
  }

  lemma {:induction false} AndBit(a: nat, b: nat, k: nat)
    ensures Bit(And(a, b), k) == (Bit(a, k) && Bit(b, k))
  {
    ZeroHasNoBits(k);
    if a != 0 && b != 0 && k > 0 { AndBit(a / 2, b / 2, k - 1); }
  }

  lemma {:induction false} OrBit(a: nat, b: nat, k: nat)
    ensures Bit(Or(a, b), k) == (Bit(a, k) || Bit(b, k))
  {
    ZeroHasNoBits(k);
    if a != 0 && b != 0 && k > 0 { OrBit(a / 2, b / 2, k - 1); }
  }

  lemma {:induction false} AndMask(w: nat, k: nat)
    ensures And(w, Ones(k)) == w % Pow2(k)
  {
    if w != 0 && k > 0 {
      AndMask(w / 2, k - 1);
      assert Ones(k) / 2 == Ones(k - 1) && Ones(k) % 2 == 1;
      ModDouble(w, Pow2(k - 1));
    }
  }

  lemma ModDouble(w: nat, m: nat)
    requires m > 0
    ensures w % (2 * m) == 2 * ((w / 2) % m) + w % 2
  {
    var q, r := (w / 2) / m, (w / 2) % m;
    assert w == (2 * m) * q + (2 * r + w % 2);
    DivModUnique(w, 2 * m, q, 2 * r + w % 2);
  }

  lemma MulLe(a: nat, b: nat, m: nat)
    ensures a <= b ==> a * m <= b * m
  {
  }

  lemma DivModUnique(a: int, d: int, q: int, r: int)
    requires d > 0 && 0 <= r < d && a == d * q + r
    ensures a / d == q && a % d == r
  {
    var diff := a / d - q;
    assert d * diff == r - a % d;
    MulBound(d, diff);
  }

  lemma MulBound(d: int, x: int)
    requires d > 0
    ensures x >= 1 ==> d * x >= d
    ensures x <= -1 ==> d * x <= -d
  {
  }

  // ----- the two idioms of the search

  /** tmp &= tmp + 1 clears exactly the trailing ones. */
  lemma {:induction false} ClearTrailingOnes(w: nat, k: nat)
    ensures Bit(And(w, w + 1), k) == (k >= TrailingOnes(w) && Bit(w, k))
  {
    if w % 2 == 0 {
      assert And(w, w + 1) == w by { AndSelfUp(w); }
    } else {
      assert (w + 1) / 2 == w / 2 + 1;
      if k > 0 { ClearTrailingOnes(w / 2, k - 1); }
    }
  }

  lemma {:induction false} AndSelf(w: nat)
    ensures And(w, w) == w
  {
    if w > 0 { AndSelf(w / 2); }
  }

  lemma AndSelfUp(w: nat)
    requires w % 2 == 0
    ensures And(w, w + 1) == w
  {
    if w > 0 { AndSelf(w / 2); assert (w + 1) / 2 == w / 2; }
  }

  lemma {:induction false} OrSelf(w: nat)
    ensures Or(w, w) == w
  {
    if w > 0 { OrSelf(w / 2); }
  }

  /** One digit of w | (w - 1). */
  lemma OrPred(w: nat)
    requires w > 0
    ensures w % 2 == 1 ==> Or(w, w - 1) == w
    ensures w % 2 == 0 ==> Or(w, w - 1) == 2 * Or(w / 2, w / 2 - 1) + 1
  {
    if w % 2 == 1 {
      OrSelf(w / 2);
      assert (w - 1) / 2 == w / 2;
    } else {
      assert (w - 1) / 2 == w / 2 - 1;
    }
  }

  /** tmp |= tmp - 1 sets exactly the trailing zeros. */
  lemma {:induction false} FillTrailingZeros(w: nat, k: nat)
    requires w > 0
    ensures Bit(Or(w, w - 1), k) == (k < TrailingZeros(w) || Bit(w, k))
  {
    OrPred(w);
    if w % 2 == 0 && k > 0 { FillTrailingZeros(w / 2, k - 1); }
  }

  lemma {:induction false} TrailingOnesBits(w: nat, k: nat)
    ensures k < TrailingOnes(w) ==> Bit(w, k)
    ensures k == TrailingOnes(w) ==> !Bit(w, k)
  {
    if w % 2 == 1 && k > 0 { TrailingOnesBits(w / 2, k - 1); }
  }

  lemma {:induction false} TrailingZerosBits(w: nat, k: nat)
    requires w > 0
    ensures k < TrailingZeros(w) ==> !Bit(w, k)
    ensures k == TrailingZeros(w) ==> Bit(w, k)
  {
    if w % 2 == 0 && k > 0 { TrailingZerosBits(w / 2, k - 1); }
  }

  lemma {:induction false} TrailingOnesBound(w: nat, width: nat)
    requires w < Ones(width)
    ensures TrailingOnes(w) < width
  {
    if w % 2 == 1 { TrailingOnesBound(w / 2, width - 1); }
  }

  lemma {:induction false} TrailingZerosBound(w: nat, width: nat)
    requires 0 < w < Pow2(width)
    ensures TrailingZeros(w) < width
  {
    if w % 2 == 0 { TrailingZerosBound(w / 2, width - 1); }
  }

  // ----- results stay inside the word

  lemma {:induction false} AndBound(a: nat, b: nat)
    ensures And(a, b) <= a
  {
    if a != 0 && b != 0 { AndBound(a / 2, b / 2); }
  }

  lemma {:induction false} OrBound(a: nat, b: nat, width: nat)
    requires a < Pow2(width) && b < Pow2(width)
    ensures Or(a, b) < Pow2(width)
  {
    if a != 0 && b != 0 { OrBound(a / 2, b / 2, width - 1); }
  }

  lemma {:induction false} OnesBits(width: nat, k: nat)
    requires k < width
    ensures Bit(Ones(width), k)
  {
    assert Ones(width) / 2 == Ones(width - 1);
    if k > 0 { OnesBits(width - 1, k - 1); }
  }

  lemma OnesOrClearBit(w: nat, width: nat)
    requires w < Pow2(width)
    ensures w == Ones(width) ==> forall k | 0 <= k < width :: Bit(w, k)
    ensures w != Ones(width) ==> TrailingOnes(w) < width
  {
    if w == Ones(width) {
      forall k | 0 <= k < width ensures Bit(w, k) { OnesBits(width, k); }
    } else {
      TrailingOnesBound(w, width);
    }
  }

  // ----- setting one bit

  /** w | (1 << k). */
  function SetBit(w: nat, k: nat): nat {
    Or(w, Pow2(k))
  }

  lemma {:induction false} Pow2Bit(k: nat, j: nat)
    ensures Bit(Pow2(k), j) == (j == k)
  {
    if k == 0 {
      if j > 0 { ZeroHasNoBits(j - 1); }
    } else if j > 0 {
      Pow2Bit(k - 1, j - 1);
    }
  }

  lemma {:induction false} Pow2Monotone(a: nat, b: nat)
    requires a < b
    ensures 2 * Pow2(a) <= Pow2(b)
  {
    if a + 1 < b { Pow2Monotone(a, b - 1); }
  }

  lemma SetBitBits(w: nat, k: nat, width: nat, j: nat)
    requires w < Pow2(width) && k < width
    ensures SetBit(w, k) < Pow2(width)
    ensures Bit(SetBit(w, k), j) == (j == k || Bit(w, j))
  {
    Pow2Monotone(k, width);
    OrBound(w, Pow2(k), width);
    OrBit(w, Pow2(k), j);
    Pow2Bit(k, j);
  }

  // ----- counting trailing ones by halving

  /** If the low k bits are all set the count continues above them, otherwise it stops below k. */
  lemma {:induction false} TrailingOnesSplit(w: nat, k: nat)
    ensures if w % Pow2(k) == Ones(k) then TrailingOnes(w) == k + TrailingOnes(ShiftRight(w, k))
            else TrailingOnes(w) < k
  {
    if k > 0 {
      ModDouble(w, Pow2(k - 1));
      TrailingOnesSplit(w / 2, k - 1);
    }
  }

  /** zend_mm_bitset_nts, portable branch: the number of trailing set bits. */
  method CountTrailingOnes(width: nat, bits: nat) returns (n: nat)
    requires width == 32 || width == 64
    requires bits < Pow2(width)
    ensures n == if bits == Ones(width) then width else TrailingOnes(bits)
  {
    if bits == Ones(width) { return width; }
    TrailingOnesBound(bits, width);
    var bitset := bits;
    n := 0;
    if width == 64 {
      n, bitset := HalveOnes(32, n, bitset, bits);
    }
    n, bitset := HalveOnes(16, n, bitset, bits);
    n, bitset := HalveOnes(8, n, bitset, bits);
    n, bitset := HalveOnes(4, n, bitset, bits);
    n, bitset := HalveOnes(2, n, bitset, bits);
    n := n + And(bitset, 1);
    AndMask(bitset, 1);
  }

  /** One halving step: skip the low `half` bits when they are all set. */
  method HalveOnes(half: nat, n: nat, bitset: nat, ghost whole: nat) returns (n': nat, bitset': nat)
    requires half > 0
    requires TrailingOnes(whole) == n + TrailingOnes(bitset) && TrailingOnes(bitset) < 2 * half
    ensures TrailingOnes(whole) == n' + TrailingOnes(bitset') && TrailingOnes(bitset') < half
  {
    n', bitset' := n, bitset;
    AndMask(bitset, half);
    TrailingOnesSplit(bitset, half);
    if And(bitset, Ones(half)) == Ones(half) {
      n', bitset' := n + half, ShiftRight(bitset, half);
    }
  }
}
