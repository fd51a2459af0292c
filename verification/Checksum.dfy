/** The Internet checksum (sections 1 and 2 of RFC 1071) as in_cksum computes it, on machines
    of either byte order. */
module Checksum {
  import opened Bytes
  import opened Words

  const WRAP := 0x1_0000_0000

  /** The 16-bit word that a machine reads from two consecutive bytes. */
  function Word(first: byte, second: byte, big: bool): (w: nat)
    ensures w <= 0xffff
  {
    if big then 256 * (first as int) + second as int else 256 * (second as int) + first as int
  }

  /** The words of a packet; an odd last byte is paired with a zero byte. */
  function WordsOf(bytes: seq<byte>, big: bool): (ws: seq<nat>)
    ensures |ws| == (|bytes| + 1) / 2 && forall i | 0 <= i < |ws| :: ws[i] <= 0xffff
  {
    seq((|bytes| + 1) / 2, i requires 0 <= i < (|bytes| + 1) / 2 =>
      Word(bytes[2 * i], if 2 * i + 1 < |bytes| then bytes[2 * i + 1] else 0, big))
  }

  function Sum(ws: seq<nat>): nat {
    if ws == [] then 0 else Sum(ws[..|ws| - 1]) + ws[|ws| - 1]
  }

  /** The one's-complement value of a sum: 0 only for 0, else the residue in 1 .. 65535. */
  function Fold(sum: nat): (v: nat)
    ensures v <= 0xffff && (v == 0 <==> sum == 0)
  {
    if sum == 0 then 0 else 1 + (sum - 1) % 0xffff
  }

  /** The one's complement of the one's-complement sum. */
  function Cksum(ws: seq<nat>): (c: nat)
    ensures c <= 0xffff
  {
    0xffff - Fold(Sum(ws))
  }

  // ----- the sum fits in 32 bits

  lemma {:induction false} SumBound(ws: seq<nat>)
    requires forall i | 0 <= i < |ws| :: ws[i] <= 0xffff
    ensures Sum(ws) <= 0xffff * |ws|
  {
    if ws != [] { SumBound(ws[..|ws| - 1]); }
  }

  lemma {:induction false} SumOfOnes(n: nat)
    ensures Sum(seq(n, _ => 0xffff)) == 0xffff * n
  {
    if n > 0 {
      assert seq(n, _ => 0xffff)[..n - 1] == seq(n - 1, _ => 0xffff);
      SumOfOnes(n - 1);
    }
  }

  /** No packet of n words overflows the 32-bit sum exactly when n is at most 65537. */
  lemma NoOverflowIff(n: nat)
    ensures (forall ws: seq<nat> | |ws| == n && (forall i | 0 <= i < n :: ws[i] <= 0xffff) :: Sum(ws) < WRAP)
            <==> n <= 65537
  {
    if n <= 65537 {
      forall ws: seq<nat> | |ws| == n && (forall i | 0 <= i < n :: ws[i] <= 0xffff) ensures Sum(ws) < WRAP {
        SumBound(ws);
      }
    } else {
      SumOfOnes(n);
      var ws: seq<nat> := seq(n, _ => 0xffff);
      assert Sum(ws) >= WRAP;
    }
  }

  // ----- residues

  lemma FoldUnique(sum: nat, v: nat, m: int)
    requires sum > 0 && 1 <= v <= 0xffff && sum - v == 0xffff * m
    ensures v == Fold(sum)
  {
    DivModUnique(sum - 1, 0xffff, m, v - 1);
  }

  lemma FoldResidue(sum: nat) returns (m: int)
    ensures sum - Fold(sum) == 0xffff * m
  {
    m := if sum == 0 then 0 else (sum - 1) / 0xffff;
  }

  /** Two foldings of a 32-bit sum give its one's-complement value. */
  lemma FoldTwice(sum: nat)
    requires sum < WRAP
    ensures var once := sum / 0x1_0000 + sum % 0x1_0000;
            (once + once / 0x1_0000) % 0x1_0000 == Fold(sum)
  {
    var q, r := sum / 0x1_0000, sum % 0x1_0000;
    if sum > 0 {
      if q + r < 0x1_0000 {
        FoldUnique(sum, q + r, q);
      } else {
        FoldUnique(sum, q + r - 0xffff, q + 1);
      }
    }
  }

  // ----- the code

  /** Adding the next word to a wrapped sum. */
  lemma SumStep(ws: seq<nat>, i: nat)
    requires i < |ws|
    ensures Sum(ws[..i + 1]) % WRAP == (Sum(ws[..i]) % WRAP + ws[i]) % WRAP
  {
    assert ws[..i + 1][..i] == ws[..i];
  }

  /** The end of in_cksum: fold twice, complement, truncate. */
  method FoldDown(total: nat) returns (answer: nat)
    requires total < WRAP
    ensures answer == 0xffff - Fold(total)
  {
    FoldTwice(total);
    var sum := total / 0x1_0000 + total % 0x1_0000;
    sum := sum + sum / 0x1_0000;
    answer := 0xffff - sum % 0x1_0000;
  }

  /** Packets of at most 65537 words do not wrap the sum. */
  lemma NoWrap(ws: seq<nat>)
    requires |ws| <= 65537 && forall i | 0 <= i < |ws| :: ws[i] <= 0xffff
    ensures Sum(ws) % WRAP == Sum(ws)
  {
    SumBound(ws);
    DivModUnique(Sum(ws), WRAP, 0, Sum(ws));
  }

  lemma CksumIfNoWrap(bytes: seq<byte>, big: bool, answer: nat)
    requires answer <= 0xffff && answer == 0xffff - Fold(Sum(WordsOf(bytes, big)) % WRAP)
    ensures |bytes| <= 2 * 65537 ==> IsCksum(bytes, InPacketOrder(answer, big))
  {
    if |bytes| <= 2 * 65537 {
      NoWrap(WordsOf(bytes, big));
      StoredCksum(bytes, big);
    }
  }

  /** in_cksum. */
  method InCksum(addr: array<byte>, len: nat, big: bool) returns (answer: nat)
    requires len <= addr.Length
    ensures answer == 0xffff - Fold(Sum(WordsOf(addr[..len], big)) % WRAP)
    ensures answer <= 0xffff && (len <= 2 * 65537 ==> IsCksum(addr[..len], InPacketOrder(answer, big)))
  {
    var sum := SumWords(addr, len, big);
    answer := FoldDown(sum);
    CksumIfNoWrap(addr[..len], big, answer);
  }

  /** Its loop, and the odd byte. */
  method SumWords(addr: array<byte>, len: nat, big: bool) returns (sum: nat)
    requires len <= addr.Length
    ensures sum == Sum(WordsOf(addr[..len], big)) % WRAP
  {
    ghost var ws := WordsOf(addr[..len], big);
    var nleft, w: nat := len, 0;
    sum := 0;
    ghost var i: nat := 0;
    while nleft > 1
      invariant 0 <= nleft && w + nleft == len && w == 2 * i
      invariant 0 <= sum < WRAP && sum == Sum(ws[..i]) % WRAP
    {
      assert ws[i] == Word(addr[w], addr[w + 1], big);
      SumStep(ws, i);
      sum := (sum + Word(addr[w], addr[w + 1], big)) % WRAP;
      w := w + 2;
      i := i + 1;
      nleft := nleft - 2;
    }
    if nleft == 1 {
      SumStep(ws, i);
      var answer := Word(addr[w], 0, big);
      sum := (sum + answer) % WRAP;
      i := i + 1;
    }
    assert ws[..i] == ws;
  }

  // ----- word order

  lemma {:induction false} SumWithout(ws: seq<nat>, k: nat)
    requires k < |ws|
    ensures Sum(ws) == Sum(ws[..k] + ws[k + 1..]) + ws[k]
  {
    if k == |ws| - 1 {
      assert ws[..k] + ws[k + 1..] == ws[..|ws| - 1];
    } else {
      var front, rest := ws[..|ws| - 1], ws[..k] + ws[k + 1..];
      SumWithout(front, k);
      assert rest[..|rest| - 1] == front[..k] + front[k + 1..];
    }
  }

  /** The checksum does not depend on the order of the words. */
  lemma {:induction false} AnyOrder(ws: seq<nat>, ws': seq<nat>)
    requires multiset(ws) == multiset(ws')
    ensures Sum(ws) == Sum(ws') && Cksum(ws) == Cksum(ws')
    decreases |ws|
  {
    if ws == [] {
      assert |multiset(ws')| == 0;
    } else {
      var last := |ws| - 1;
      assert ws[last] in multiset(ws');
      var k :| 0 <= k < |ws'| && ws'[k] == ws[last];
      SumWithout(ws', k);
      assert ws == ws[..last] + [ws[last]];
      assert ws' == ws'[..k] + [ws'[k]] + ws'[k + 1..];
      assert multiset(ws[..last]) == multiset(ws) - multiset{ws[last]};
      assert multiset(ws'[..k] + ws'[k + 1..]) == multiset(ws') - multiset{ws'[k]};
      AnyOrder(ws[..last], ws'[..k] + ws'[k + 1..]);
    }
  }

  // ----- byte order

  function Swap(w: nat): (s: nat)
    requires w <= 0xffff
    ensures s <= 0xffff
  {
    256 * (w % 256) + w / 256
  }

  lemma SwapSum(ws: seq<nat>, swapped: seq<nat>) returns (m: nat)
    requires |swapped| == |ws|
    requires forall i | 0 <= i < |ws| :: ws[i] <= 0xffff && swapped[i] == Swap(ws[i])
    ensures 256 * Sum(ws) - Sum(swapped) == 0xffff * m
    ensures Sum(ws) == 0 <==> Sum(swapped) == 0
  {
    if ws == [] {
      m := 0;
    } else {
      var last := |ws| - 1;
      m := SwapSum(ws[..last], swapped[..last]);
      m := m + ws[last] / 256;
    }
  }

  /** Swapping the bytes of every word swaps the bytes of the checksum. */
  lemma SwapCksum(ws: seq<nat>, swapped: seq<nat>)
    requires |swapped| == |ws|
    requires forall i | 0 <= i < |ws| :: ws[i] <= 0xffff && swapped[i] == Swap(ws[i])
    ensures Cksum(swapped) == Swap(Cksum(ws))
  {
    var sum, v := Sum(ws), Fold(Sum(ws));
    var m := SwapSum(ws, swapped);
    var k := FoldResidue(sum);
    SwapComplement(v);
    if sum > 0 {
      FoldUnique(Sum(swapped), Swap(v), 256 * k - m + v / 256);
    }
  }

  lemma SwapComplement(v: nat)
    requires v <= 0xffff
    ensures Swap(0xffff - v) == 0xffff - Swap(v)
    ensures 256 * v - Swap(v) == 0xffff * (v / 256) && (v > 0 ==> Swap(v) > 0)
  {
  }

  /** So machines of either byte order put the same two bytes into the packet. */
  lemma ByteOrderIndependent(bytes: seq<byte>)
    ensures Cksum(WordsOf(bytes, true)) == Swap(Cksum(WordsOf(bytes, false)))
  {
    SwapCksum(WordsOf(bytes, false), WordsOf(bytes, true));
  }

  // ----- checking a packet

  lemma SumUpdate(ws: seq<nat>, k: nat, w: nat)
    requires k < |ws|
    ensures Sum(ws[k := w]) == Sum(ws) - ws[k] + w
  {
    SumWithout(ws, k);
    SumWithout(ws[k := w], k);
    assert ws[k := w][..k] == ws[..k] && ws[k := w][k + 1..] == ws[k + 1..];
  }

  /** Storing the checksum in a zero word makes the checksum of the whole 0. */
  lemma StoredChecks(ws: seq<nat>, k: nat)
    requires k < |ws| && ws[k] == 0
    ensures Cksum(ws[k := Cksum(ws)]) == 0
  {
    SumUpdate(ws, k, Cksum(ws));
    var m := FoldResidue(Sum(ws));
    FoldUnique(Sum(ws[k := Cksum(ws)]), 0xffff, m);
  }

  /** A packet checks exactly when its sum is a positive multiple of 65535. */
  lemma ChecksIff(ws: seq<nat>)
    ensures Cksum(ws) == 0 <==> Sum(ws) > 0 && Sum(ws) % 0xffff == 0
  {
    var m := FoldResidue(Sum(ws));
    if Cksum(ws) == 0 {
      DivModUnique(Sum(ws), 0xffff, m + 1, 0);
    } else if Sum(ws) > 0 && Sum(ws) % 0xffff == 0 {
      FoldUnique(Sum(ws), 0xffff, Sum(ws) / 0xffff - 1);
    }
  }

  /** A change of one word of a packet that checks goes unnoticed exactly when it trades
      0x0000 for 0xffff, or back with something else left in the packet. */
  lemma OneWordChange(ws: seq<nat>, k: nat, w: nat)
    requires k < |ws| && ws[k] <= 0xffff && w <= 0xffff && w != ws[k] && Cksum(ws) == 0
    ensures Cksum(ws[k := w]) == 0 <==>
            (ws[k] == 0 && w == 0xffff) || (ws[k] == 0xffff && w == 0 && Sum(ws) > 0xffff)
  {
    SumUpdate(ws, k, w);
    ChecksIff(ws);
    ChecksIff(ws[k := w]);
    var q := Sum(ws) / 0xffff;
    var d := w - ws[k];
    if d == 0xffff {
      DivModUnique(Sum(ws) + d, 0xffff, q + 1, 0);
    } else if d == -0xffff {
      DivModUnique(Sum(ws) + d, 0xffff, q - 1, 0);
    } else if d > 0 {
      DivModUnique(Sum(ws) + d, 0xffff, q, d);
    } else {
      DivModUnique(Sum(ws) + d, 0xffff, q - 1, 0xffff + d);
    }
  }

  // ----- the packet as a number

  /** The bytes read as one number, base 256. */
  function Number(bytes: seq<byte>): nat {
    if bytes == [] then 0 else 256 * Number(bytes[..|bytes| - 1]) + bytes[|bytes| - 1] as int
  }

  /** With a zero behind an odd number of bytes. */
  function Padded(bytes: seq<byte>): seq<byte> {
    if |bytes| % 2 == 0 then bytes else bytes + [0]
  }

  predicate AllZero(bytes: seq<byte>) {
    forall i | 0 <= i < |bytes| :: bytes[i] == 0
  }

  /** What a checksum is, without any words: added to the number it gives a multiple of 65535, and
      it is 65535 itself exactly for a packet of zeros. */
  predicate IsCksum(bytes: seq<byte>, c: nat) {
    && c <= 0xffff && (Number(Padded(bytes)) + c) % 0xffff == 0
    && (c == 0xffff <==> AllZero(bytes))
  }

  /** Every packet has at most one. */
  lemma CksumUnique(bytes: seq<byte>, c: nat, c': nat)
    requires IsCksum(bytes, c) && IsCksum(bytes, c') && c <= c'
    ensures c == c'
  {
    var n := Number(Padded(bytes));
    var q, q' := (n + c) / 0xffff, (n + c') / 0xffff;
    assert c' - c == 0xffff * (q' - q);
  }

  lemma {:induction false} NumberStep(bytes: seq<byte>)
    requires |bytes| >= 2
    ensures var n := |bytes|;
            Number(bytes) == 0x1_0000 * Number(bytes[..n - 2]) + 256 * bytes[n - 2] as int + bytes[n - 1] as int
  {
    var n := |bytes|;
    assert bytes[..n - 1][..n - 2] == bytes[..n - 2];
    assert Number(bytes[..n - 1]) == 256 * Number(bytes[..n - 2]) + bytes[n - 2] as int;
  }

  lemma {:induction false} SumStepBack(bytes: seq<byte>)
    requires |bytes| >= 2 && |bytes| % 2 == 0
    ensures var n := |bytes|;
            Sum(WordsOf(bytes, true)) ==
            Sum(WordsOf(bytes[..n - 2], true)) + 256 * bytes[n - 2] as int + bytes[n - 1] as int
  {
    var ws := WordsOf(bytes, true);
    assert ws[..|ws| - 1] == WordsOf(bytes[..|bytes| - 2], true);
  }

  /** The sum of the words is congruent to that number. */
  lemma {:induction false} SumIsNumber(bytes: seq<byte>) returns (m: nat)
    requires |bytes| % 2 == 0
    ensures Number(bytes) - Sum(WordsOf(bytes, true)) == 0xffff * m
  {
    if bytes == [] {
      m := 0;
    } else {
      var front := bytes[..|bytes| - 2];
      m := SumIsNumber(front);
      NumberStep(bytes);
      SumStepBack(bytes);
      m := m + Number(front);
    }
  }

  /** It is 0 only for a packet of zeros. */
  lemma {:induction false} SumZeroIff(bytes: seq<byte>)
    requires |bytes| % 2 == 0
    ensures Sum(WordsOf(bytes, true)) == 0 <==> AllZero(bytes)
  {
    if bytes != [] {
      SumZeroIff(bytes[..|bytes| - 2]);
      SumStepBack(bytes);
      assert AllZero(bytes) ==> AllZero(bytes[..|bytes| - 2]);
    }
  }

  lemma PaddedWords(bytes: seq<byte>, big: bool)
    ensures WordsOf(Padded(bytes), big) == WordsOf(bytes, big)
    ensures AllZero(Padded(bytes)) <==> AllZero(bytes)
  {
    assert forall i | 0 <= i < |bytes| :: Padded(bytes)[i] == bytes[i];
  }

  /** in_cksum's value on a big-endian machine is that checksum. */
  lemma CksumOfNumber(bytes: seq<byte>)
    ensures IsCksum(bytes, Cksum(WordsOf(bytes, true)))
  {
    PaddedWords(bytes, true);
    SumZeroIff(Padded(bytes));
    var m := SumIsNumber(Padded(bytes));
    var k := FoldResidue(Sum(WordsOf(bytes, true)));
    DivModUnique(Number(Padded(bytes)) + Cksum(WordsOf(bytes, true)), 0xffff, m + k + 1, 0);
  }

  /** What a machine of the given byte order reads as w, as its two bytes in the packet's order. */
  function InPacketOrder(w: nat, big: bool): nat
    requires w <= 0xffff
  {
    if big then w else Swap(w)
  }

  lemma StoredCksum(bytes: seq<byte>, big: bool)
    ensures IsCksum(bytes, InPacketOrder(Cksum(WordsOf(bytes, big)), big))
  {
    CksumOfNumber(bytes);
    ByteOrderIndependent(bytes);
  }

  /** A change of any one byte of a packet that checks is noticed, on either byte order. */
  lemma OneByteChange(bytes: seq<byte>, k: nat, b: byte, big: bool)
    requires k < |bytes| && b != bytes[k] && Cksum(WordsOf(bytes, big)) == 0
    ensures Cksum(WordsOf(bytes[k := b], big)) != 0
  {
    var ws, after := WordsOf(bytes, big), WordsOf(bytes[k := b], big);
    assert after == ws[k / 2 := after[k / 2]];
    OneWordChange(ws, k / 2, after[k / 2]);
  }

  // ----- send_v4

  const ICMP_ECHO: byte := 8

  function FirstByte(w: nat, big: bool): byte
    requires w <= 0xffff
  {
    (if big then w / 256 else w % 256) as byte
  }

  function SecondByte(w: nat, big: bool): byte
    requires w <= 0xffff
  {
    (if big then w % 256 else w / 256) as byte
  }

  /** An echo request with its checksum field filled in. */
  function Echo(id: nat, nseq: nat, data: seq<byte>, cksum: nat, big: bool): (p: seq<byte>)
    requires id <= 0xffff && nseq <= 0xffff && cksum <= 0xffff
    ensures |p| == 8 + |data|
  {
    [ICMP_ECHO, 0, FirstByte(cksum, big), SecondByte(cksum, big),
     FirstByte(id, big), SecondByte(id, big), FirstByte(nseq, big), SecondByte(nseq, big)] + data
  }

  lemma EchoWords(id: nat, nseq: nat, data: seq<byte>, cksum: nat, big: bool)
    requires id <= 0xffff && nseq <= 0xffff && cksum <= 0xffff
    ensures WordsOf(Echo(id, nseq, data, 0, big), big)[1] == 0
    ensures WordsOf(Echo(id, nseq, data, cksum, big), big) == WordsOf(Echo(id, nseq, data, 0, big), big)[1 := cksum]
  {
    var p, z := Echo(id, nseq, data, cksum, big), Echo(id, nseq, data, 0, big);
    assert forall i | 0 <= i < |p| && i != 2 && i != 3 :: p[i] == z[i];
    assert WordsOf(p, big)[1] == Word(p[2], p[3], big) == cksum;
    assert WordsOf(z, big)[1] == Word(z[2], z[3], big) == 0;
  }

  /** A 16-bit store at an even offset. */
  method StoreWord(buf: array<byte>, at: nat, w: nat, big: bool)
    requires at + 1 < buf.Length && w <= 0xffff
    modifies buf
    ensures buf[at] == FirstByte(w, big) && buf[at + 1] == SecondByte(w, big)
    ensures forall i | 0 <= i < buf.Length && i != at && i != at + 1 :: buf[i] == old(buf[i])
  {
    buf[at] := FirstByte(w, big);
    buf[at + 1] := SecondByte(w, big);
  }

  method FillEcho(sendbuf: array<byte>, id: nat, nseq: nat, data: seq<byte>, big: bool)
    requires id <= 0xffff && nseq <= 0xffff && 8 + |data| <= sendbuf.Length
    modifies sendbuf
    ensures sendbuf[..8 + |data|] == Echo(id, nseq, data, 0, big)
    ensures forall i | 8 + |data| <= i < sendbuf.Length :: sendbuf[i] == old(sendbuf[i])
  {
    sendbuf[0] := ICMP_ECHO;
    sendbuf[1] := 0;
    StoreWord(sendbuf, 4, id, big);
    StoreWord(sendbuf, 6, nseq, big);
    forall i | 0 <= i < |data| { sendbuf[8 + i] := data[i]; }
    StoreWord(sendbuf, 2, 0, big);
    forall i | 8 <= i < 8 + |data| ensures sendbuf[i] == data[i - 8] {
      assert sendbuf[8 + (i - 8)] == data[i - 8];
    }
  }

  method PutCksum(sendbuf: array<byte>, id: nat, nseq: nat, data: seq<byte>, cksum: nat, big: bool)
    requires id <= 0xffff && nseq <= 0xffff && cksum <= 0xffff && 8 + |data| <= sendbuf.Length
    requires sendbuf[..8 + |data|] == Echo(id, nseq, data, 0, big)
    modifies sendbuf
    ensures sendbuf[..8 + |data|] == Echo(id, nseq, data, cksum, big)
    ensures forall i | 8 + |data| <= i < sendbuf.Length :: sendbuf[i] == old(sendbuf[i])
  {
    ghost var before := sendbuf[..8 + |data|];
    StoreWord(sendbuf, 2, cksum, big);
    assert forall i | 0 <= i < 8 + |data| && i != 2 && i != 3 :: sendbuf[i] == before[i];
  }

  lemma EchoChecks(id: nat, nseq: nat, data: seq<byte>, big: bool)
    requires id <= 0xffff && nseq <= 0xffff && 8 + |data| <= 2 * 65537
    ensures var zeroed := WordsOf(Echo(id, nseq, data, 0, big), big);
            && Sum(zeroed) % WRAP == Sum(zeroed)
            && Cksum(WordsOf(Echo(id, nseq, data, Cksum(zeroed), big), big)) == 0
  {
    var zeroed := WordsOf(Echo(id, nseq, data, 0, big), big);
    NoWrap(zeroed);
    EchoWords(id, nseq, data, Cksum(zeroed), big);
    StoredChecks(zeroed, 1);
  }

  /** send_v4 up to the call of sendto: the packet it sends checks, on either byte order. */
  method SendV4(sendbuf: array<byte>, id: nat, nseq: nat, data: seq<byte>, big: bool) returns (len: nat)
    requires id <= 0xffff && nseq <= 0xffff
    requires 8 + |data| <= sendbuf.Length && 8 + |data| <= 2 * 65537
    modifies sendbuf
    ensures len == 8 + |data|
    ensures var zeroed := WordsOf(Echo(id, nseq, data, 0, big), big);
            sendbuf[..len] == Echo(id, nseq, data, Cksum(zeroed), big)
    ensures Cksum(WordsOf(sendbuf[..len], big)) == 0 && IsCksum(sendbuf[..len], 0)
    ensures IsEcho(sendbuf[..len], id, nseq, data, big)
    ensures forall i | len <= i < sendbuf.Length :: sendbuf[i] == old(sendbuf[i])
  {
    len := 8 + |data|;
    FillEcho(sendbuf, id, nseq, data, big);
    var cksum := InCksum(sendbuf, len, big);
    EchoChecks(id, nseq, data, big);
    PutCksum(sendbuf, id, nseq, data, cksum, big);
    StoredCksum(sendbuf[..len], big);
    EchoFields(sendbuf[..len], id, nseq, data, cksum, big);
  }

  /** Type 8, code 0, then the identifier and the sequence number as this machine stores them, and
      the data behind the eight bytes of the header. */
  predicate IsEcho(p: seq<byte>, id: nat, nseq: nat, data: seq<byte>, big: bool) {
    && |p| >= 8 && p[0] == 8 && p[1] == 0 && p[8..] == data
    && id == (if big then 256 * p[4] as int + p[5] as int else 256 * p[5] as int + p[4] as int)
    && nseq == if big then 256 * p[6] as int + p[7] as int else 256 * p[7] as int + p[6] as int
  }

  lemma EchoFields(p: seq<byte>, id: nat, nseq: nat, data: seq<byte>, cksum: nat, big: bool)
    requires id <= 0xffff && nseq <= 0xffff && cksum <= 0xffff && p == Echo(id, nseq, data, cksum, big)
    ensures IsEcho(p, id, nseq, data, big)
    ensures cksum == if big then 256 * p[2] as int + p[3] as int else 256 * p[3] as int + p[2] as int
  {
  }
}
