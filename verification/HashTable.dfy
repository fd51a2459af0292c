/** Open addressing with quadratic probing over a prime number of cells. */
module HashTable {
  import opened Words
  import opened Primes

  /** MinTableSize */
  const MIN_TABLE_SIZE := 10

  datatype KindOfEntry = Legitimate | Empty | Deleted

  datatype Cell = Cell(element: nat, info: KindOfEntry)

  /** How a search ends: at a cell, or by running past the last cell of the table. */
  datatype Outcome = At(pos: nat) | Overrun

  // ----- probe sequences

  function Hash(key: nat, size: nat): (h: nat)
    requires size > 0
    ensures h < size
  {
    key % size
  }

  /** The i-th cell that is probed for key. */
  function Probe(key: nat, size: nat, i: nat): (pos: nat)
    requires size > 0
    ensures pos < size
  {
    (Hash(key, size) + i * i) % size
  }

  /** Find stops at a cell that is empty or that holds the key, whatever its state. */
  predicate StopsAt(cells: seq<Cell>, key: nat, pos: nat)
    requires pos < |cells|
  {
    cells[pos].info == Empty || cells[pos].element == key
  }

  /** The first of the probes from, from + 1, ..., n / 2 that stops the search. */
  function LookupFrom(cells: seq<Cell>, key: nat, from: nat): (r: Outcome)
    requires |cells| > 0
    ensures r.At? ==> r.pos < |cells| && StopsAt(cells, key, r.pos)
    decreases |cells| - from
  {
    if from > |cells| / 2 then Overrun
    else if StopsAt(cells, key, Probe(key, |cells|, from)) then At(Probe(key, |cells|, from))
    else LookupFrom(cells, key, from + 1)
  }

  /** What a search among the first n / 2 + 1 probes finds. */
  function Lookup(cells: seq<Cell>, key: nat): Outcome
    requires |cells| > 0
  {
    LookupFrom(cells, key, 0)
  }

  /** Which cell that is, for every key. */
  lemma ProbeIs(key: nat, size: nat, i: nat)
    requires size > 0
    ensures Probe(key, size, i) == (key + i * i) % size && Probe(key, size, 0) == key % size
  {
    var h := Hash(key, size);
    var q := (h + i * i) / size;
    assert key + i * i == size * (key / size + q) + Probe(key, size, i);
    DivModUnique(key + i * i, size, key / size + q, Probe(key, size, i));
    DivModUnique(h, size, 0, h);
  }

  /** Adding 2 * i - 1 and subtracting the size at most once goes from probe i - 1 to probe i,
      as long as the result is inside the table; up to probe size / 2 it always is. */
  lemma NextProbe(key: nat, size: nat, i: nat)
    requires size > 0
    ensures var pos := Probe(key, size, i) + 2 * (i + 1) - 1;
            var next := if pos >= size then pos - size else pos;
            && (next < size ==> next == Probe(key, size, i + 1))
            && (i + 1 <= size / 2 ==> next == Probe(key, size, i + 1))
  {
    var h := Hash(key, size);
    var q, r := (h + i * i) / size, (h + i * i) % size;
    assert (i + 1) * (i + 1) == i * i + 2 * i + 1;
    var pos := r + 2 * i + 1;
    var next := if pos >= size then pos - size else pos;
    var q' := if pos >= size then q + 1 else q;
    if next < size {
      assert h + (i + 1) * (i + 1) == size * q' + next;
      DivModUnique(h + (i + 1) * (i + 1), size, q', next);
    }
  }

  /** Probe size - i is probe i again. */
  lemma ProbeFold(key: nat, size: nat, i: nat)
    requires 0 < size && i <= size
    ensures Probe(key, size, size - i) == Probe(key, size, i)
  {
    var h := Hash(key, size);
    var q, r := (h + i * i) / size, (h + i * i) % size;
    assert (size - i) * (size - i) == size * (size - 2 * i) + i * i;
    assert h + (size - i) * (size - i) == size * (q + size - 2 * i) + r;
    DivModUnique(h + (size - i) * (size - i), size, q + size - 2 * i, r);
  }

  lemma ProductNotMultiple(p: nat, a: nat, b: nat, m: int)
    requires IsPrime(p) && 0 < a < p && 0 < b < p
    ensures a * b != p * m
  {
    if a * b == p * m {
      MultipleDivides(p, a * b, m);
      PrimeDividesFactor(p, a, b);
    }
  }

  lemma SquaresDiffer(p: nat, i: nat, j: nat, m: int)
    requires IsPrime(p) && i < j && i + j < p
    ensures j * j - i * i != p * m
  {
    DifferenceOfSquares(i, j);
    ProductNotMultiple(p, j - i, j + i, m);
  }

  /** For a prime size the first size / 2 + 1 probes are pairwise distinct. */
  lemma ProbesDistinct(key: nat, size: nat, i: nat, j: nat)
    requires IsPrime(size) && size > 2 && i < j <= size / 2
    ensures Probe(key, size, i) != Probe(key, size, j)
  {
    if Probe(key, size, i) == Probe(key, size, j) {
      var m := SameRemainder(Hash(key, size), i * i, j * j, size);
      SquaresDiffer(size, i, j, m);
    }
  }

  lemma SameRemainder(h: nat, x: nat, y: nat, n: nat) returns (m: int)
    requires n > 0 && (h + x) % n == (h + y) % n
    ensures y - x == n * m
  {
    m := (h + y) / n - (h + x) / n;
  }

  lemma DifferenceOfSquares(i: nat, j: nat)
    ensures j * j - i * i == (j - i) * (j + i)
  {
  }

  // ----- how full a table may be

  function Occupied(cells: seq<Cell>): set<nat> {
    set p: nat | p < |cells| && cells[p].info != Empty
  }

  ghost function ProbeSet(key: nat, size: nat, n: nat): set<nat>
    requires size > 0
  {
    if n == 0 then {} else ProbeSet(key, size, n - 1) + {Probe(key, size, n - 1)}
  }

  lemma {:induction false} ProbeSetMember(key: nat, size: nat, n: nat, p: nat)
    requires size > 0
    ensures p in ProbeSet(key, size, n) <==> exists i: nat | i < n :: p == Probe(key, size, i)
  {
    if n > 0 { ProbeSetMember(key, size, n - 1, p); }
  }

  lemma {:induction false} ProbeSetSize(key: nat, size: nat, n: nat)
    requires IsPrime(size) && size > 2 && n <= size / 2 + 1
    ensures |ProbeSet(key, size, n)| == n
  {
    if n > 0 {
      ProbeSetSize(key, size, n - 1);
      ProbeSetMember(key, size, n - 1, Probe(key, size, n - 1));
      forall i: nat | i < n - 1 ensures Probe(key, size, i) != Probe(key, size, n - 1) {
        ProbesDistinct(key, size, i, n - 1);
      }
    }
  }

  lemma SubsetSize<T>(a: set<T>, b: set<T>)
    requires a <= b
    ensures |a| <= |b|
  {
    if a != {} {
      var x :| x in a;
      SubsetSize(a - {x}, b - {x});
    }
  }

  /** Lookup overruns exactly when none of its probes stops it. */
  lemma {:induction false} OverrunIff(cells: seq<Cell>, key: nat, from: nat)
    requires |cells| > 0
    ensures LookupFrom(cells, key, from) == Overrun <==>
            forall i: nat | from <= i <= |cells| / 2 :: !StopsAt(cells, key, Probe(key, |cells|, i))
    decreases |cells| - from
  {
    if from <= |cells| / 2 { OverrunIff(cells, key, from + 1); }
  }

  /** What a search finds, cell by cell: the first of the probes 0 .. size / 2 whose cell is empty or
      holds the key, deleted or not. */
  lemma LookupIs(cells: seq<Cell>, key: nat, i: nat)
    requires |cells| > 0 && i <= |cells| / 2
    requires var c := cells[(key + i * i) % |cells|]; c.info == Empty || c.element == key
    requires forall j: nat | j < i ::
               var c := cells[Probe(key, |cells|, j)]; c.info != Empty && c.element != key
    ensures Lookup(cells, key) == At((key + i * i) % |cells|)
  {
    ProbeIs(key, |cells|, i);
    LookupSkips(cells, key, 0, i);
  }

  lemma OverrunIs(cells: seq<Cell>, key: nat)
    requires |cells| > 0
    ensures Lookup(cells, key) == Overrun <==>
            forall j: nat | j <= |cells| / 2 ::
              var c := cells[Probe(key, |cells|, j)]; c.info != Empty && c.element != key
  {
    OverrunIff(cells, key, 0);
  }

  /** In an empty table every search ends at the remainder of its key. */
  lemma EmptyLookup(cells: seq<Cell>, key: nat)
    requires |cells| > 0 && AllEmpty(cells)
    ensures Lookup(cells, key) == At(key % |cells|)
  {
    ProbeIs(key, |cells|, 0);
  }

  /** A search ends inside every prime table in which at most half the cells are occupied. */
  lemma HalfEmptyFinds(cells: seq<Cell>, key: nat)
    requires IsPrime(|cells|) && |cells| > 2 && |Occupied(cells)| <= |cells| / 2
    ensures Lookup(cells, key).At?
  {
    if Lookup(cells, key) == Overrun {
      OverrunIff(cells, key, 0);
      var probes := ProbeSet(key, |cells|, |cells| / 2 + 1);
      forall p | p in probes ensures p in Occupied(cells) {
        ProbeSetMember(key, |cells|, |cells| / 2 + 1, p);
      }
      ProbeSetSize(key, |cells|, |cells| / 2 + 1);
      SubsetSize(probes, Occupied(cells));
    }
  }

  // ----- the table as a set

  function Elements(cells: seq<Cell>): set<nat> {
    set p: nat | p < |cells| && cells[p].info == Legitimate :: cells[p].element
  }

  /** Every element is where a search for it ends. */
  ghost predicate IsTable(cells: seq<Cell>) {
    && IsPrime(|cells|) && |cells| > 2
    && forall p | 0 <= p < |cells| && cells[p].info == Legitimate :: Lookup(cells, cells[p].element) == At(p)
  }

  /** The cells after an insertion that did not overrun. */
  function Inserted(cells: seq<Cell>, key: nat): (r: seq<Cell>)
    requires |cells| > 0
    ensures |r| == |cells|
  {
    match Lookup(cells, key)
    case Overrun => cells
    case At(pos) => if cells[pos].info == Legitimate then cells else cells[pos := Cell(key, Legitimate)]
  }

  /** A key is in the table exactly when its search ends at a legitimate cell. */
  lemma Membership(cells: seq<Cell>, key: nat)
    requires IsTable(cells)
    ensures key in Elements(cells) <==>
            Lookup(cells, key).At? && cells[Lookup(cells, key).pos].info == Legitimate
  {
    if key in Elements(cells) {
      var p :| 0 <= p < |cells| && cells[p].info == Legitimate && cells[p].element == key;
    }
  }

  lemma {:induction false} LookupOther(cells: seq<Cell>, pos: nat, key: nat, other: nat, from: nat)
    requires pos < |cells| && other != key
    requires LookupFrom(cells, other, from).At? && LookupFrom(cells, other, from).pos != pos
    ensures LookupFrom(cells[pos := Cell(key, Legitimate)], other, from) == LookupFrom(cells, other, from)
    decreases |cells| - from
  {
    if !StopsAt(cells, other, Probe(other, |cells|, from)) {
      LookupOther(cells, pos, key, other, from + 1);
    }
  }

  lemma {:induction false} LookupInserted(cells: seq<Cell>, pos: nat, key: nat, from: nat)
    requires pos < |cells| && LookupFrom(cells, key, from) == At(pos)
    ensures LookupFrom(cells[pos := Cell(key, Legitimate)], key, from) == At(pos)
    decreases |cells| - from
  {
    if !StopsAt(cells, key, Probe(key, |cells|, from)) && Probe(key, |cells|, from) != pos {
      LookupInserted(cells, pos, key, from + 1);
    }
  }

  /** An insertion adds its key, keeps every other element findable, and occupies at most one more cell. */
  lemma InsertAdds(cells: seq<Cell>, key: nat)
    requires IsTable(cells) && Lookup(cells, key).At?
    ensures IsTable(Inserted(cells, key))
    ensures Elements(Inserted(cells, key)) == Elements(cells) + {key}
    ensures |Occupied(Inserted(cells, key))| <= |Occupied(cells)| + 1
  {
    var pos := Lookup(cells, key).pos;
    var after := Inserted(cells, key);
    if cells[pos].info != Legitimate {
      forall p | 0 <= p < |cells| && after[p].info == Legitimate
        ensures Lookup(after, after[p].element) == At(p)
      {
        if p == pos {
          LookupInserted(cells, pos, key, 0);
        } else {
          LookupOther(cells, pos, key, cells[p].element, 0);
        }
      }
      assert Occupied(after) == Occupied(cells) + {pos};
      ElementsUpdate(cells, pos, key);
    }
  }

  lemma ElementsUpdate(cells: seq<Cell>, pos: nat, key: nat)
    requires pos < |cells| && cells[pos].info != Legitimate
    ensures Elements(cells[pos := Cell(key, Legitimate)]) == Elements(cells) + {key}
  {
    var after := cells[pos := Cell(key, Legitimate)];
    assert after[pos].element == key;
    forall e | e in Elements(cells) ensures e in Elements(after) {
      var p: nat :| p < |cells| && cells[p].info == Legitimate && cells[p].element == e;
      assert after[p] == cells[p];
    }
  }

  // ----- runs of insertions

  ghost function InsertedAll(cells: seq<Cell>, keys: seq<nat>): (r: seq<Cell>)
    requires |cells| > 0
    ensures |r| == |cells|
  {
    if keys == [] then cells else Inserted(InsertedAll(cells, keys[..|keys| - 1]), keys[|keys| - 1])
  }

  ghost predicate AllEmpty(cells: seq<Cell>) {
    forall p | 0 <= p < |cells| :: cells[p].info == Empty
  }

  /** Insertions into any well-formed table all find their place as long as at most half the cells
      can be occupied afterwards, and add exactly the inserted keys. */
  lemma {:induction false} HalfFullIsSafe(cells: seq<Cell>, keys: seq<nat>)
    requires IsTable(cells) && |Occupied(cells)| + |keys| <= |cells| / 2
    ensures IsTable(InsertedAll(cells, keys))
    ensures |Occupied(InsertedAll(cells, keys))| <= |Occupied(cells)| + |keys|
    ensures Elements(InsertedAll(cells, keys)) == Elements(cells) + set k | k in keys
    ensures forall key :: Lookup(InsertedAll(cells, keys), key).At?
  {
    if keys != [] {
      var front, last := keys[..|keys| - 1], keys[|keys| - 1];
      HalfFullIsSafe(cells, front);
      InsertAdds(InsertedAll(cells, front), last);
      assert keys == front + [last];
    }
    forall key ensures Lookup(InsertedAll(cells, keys), key).At? {
      HalfEmptyFinds(InsertedAll(cells, keys), key);
    }
  }

  /** So size / 2 insertions into an empty table always succeed. */
  lemma EmptyIsSafe(cells: seq<Cell>, keys: seq<nat>)
    requires IsPrime(|cells|) && |cells| > 2 && AllEmpty(cells) && |keys| <= |cells| / 2
    ensures IsTable(InsertedAll(cells, keys)) && Elements(InsertedAll(cells, keys)) == set k | k in keys
    ensures forall key :: Lookup(InsertedAll(cells, keys), key).At?
  {
    assert Occupied(cells) == {};
    HalfFullIsSafe(cells, keys);
  }

  /** The table in which each taken cell p holds the key p + size, whose home it is. */
  function Spread(taken: set<nat>, size: nat): (cells: seq<Cell>)
    ensures |cells| == size
  {
    seq(size, p requires 0 <= p < size => if p in taken then Cell(p + size, Legitimate) else Cell(0, Empty))
  }

  lemma SpreadIsTable(taken: set<nat>, size: nat)
    requires IsPrime(size) && size > 2 && forall p | p in taken :: p < size
    ensures IsTable(Spread(taken, size)) && Occupied(Spread(taken, size)) == taken
  {
    var cells := Spread(taken, size);
    forall p | 0 <= p < size && cells[p].info == Legitimate ensures Lookup(cells, cells[p].element) == At(p) {
      HomeProbe(p, size);
    }
  }

  /** Keys that all go to their home cells, which are the first n probes for key 0. */
  function TightKeys(size: nat, n: nat): (keys: seq<nat>)
    requires size > 0
    ensures |keys| == n
  {
    seq(n, j requires 0 <= j < n => Probe(0, size, j) + size)
  }

  lemma {:induction false} TightInserted(size: nat, n: nat)
    requires IsPrime(size) && size > 2 && n <= size / 2 + 1
    ensures InsertedAll(Spread({}, size), TightKeys(size, n)) == Spread(ProbeSet(0, size, n), size)
  {
    if n > 0 {
      var p, before := Probe(0, size, n - 1), Spread(ProbeSet(0, size, n - 1), size);
      TightInserted(size, n - 1);
      assert TightKeys(size, n)[..n - 1] == TightKeys(size, n - 1);
      NextProbeNew(size, n - 1);
      HomeInserted(before, p);
      SpreadOne(ProbeSet(0, size, n - 1), size, p);
    }
  }

  lemma NextProbeNew(size: nat, n: nat)
    requires IsPrime(size) && size > 2 && n <= size / 2
    ensures Probe(0, size, n) !in ProbeSet(0, size, n)
  {
    ProbeSetMember(0, size, n, Probe(0, size, n));
    forall j: nat | j < n ensures Probe(0, size, j) != Probe(0, size, n) { ProbesDistinct(0, size, j, n); }
  }

  lemma SpreadOne(taken: set<nat>, size: nat, p: nat)
    requires p < size
    ensures Spread(taken, size)[p := Cell(p + size, Legitimate)] == Spread(taken + {p}, size)
  {
  }

  lemma HomeInserted(cells: seq<Cell>, p: nat)
    requires p < |cells| && cells[p].info == Empty
    ensures Inserted(cells, p + |cells|) == cells[p := Cell(p + |cells|, Legitimate)]
  {
    HomeProbe(p, |cells|);
    assert StopsAt(cells, p + |cells|, Probe(p + |cells|, |cells|, 0));
  }

  /** One key more can be too many: for every odd prime there are size / 2 + 1 keys that all go
      into an empty table of that size, after which a search overruns. */
  lemma HalfFullIsTight(size: nat) returns (empty: seq<Cell>, keys: seq<nat>)
    requires IsPrime(size) && size > 2
    ensures |empty| == size && AllEmpty(empty) && |keys| == size / 2 + 1
    ensures var cells := InsertedAll(empty, keys);
            IsTable(cells) && |Occupied(cells)| == size / 2 + 1 && Lookup(cells, 0) == Overrun
  {
    var n := size / 2 + 1;
    empty, keys := Spread({}, size), TightKeys(size, n);
    TightInserted(size, n);
    ProbeSetSize(0, size, n);
    forall p | p in ProbeSet(0, size, n) ensures p < size {
      ProbeSetMember(0, size, n, p);
    }
    SpreadIsTable(ProbeSet(0, size, n), size);
    TightOverrun(Spread(ProbeSet(0, size, n), size), size);
  }

  lemma TightOverrun(cells: seq<Cell>, size: nat)
    requires size > 0 && |cells| == size
    requires forall p | 0 <= p < size && p in ProbeSet(0, size, size / 2 + 1) ::
               cells[p].info != Empty && cells[p].element != 0
    ensures Lookup(cells, 0) == Overrun
  {
    forall i: nat | i <= size / 2 ensures !StopsAt(cells, 0, Probe(0, size, i)) {
      ProbeSetMember(0, size, size / 2 + 1, Probe(0, size, i));
    }
    OverrunIff(cells, 0, 0);
  }

  lemma HomeProbe(p: nat, size: nat)
    requires p < size
    ensures Probe(p + size, size, 0) == p
  {
    DivModUnique(p + size, size, 1, p);
    DivModUnique(p, size, 0, p);
  }

  // ----- the code

  lemma {:induction false} LookupSkips(cells: seq<Cell>, key: nat, from: nat, i: nat)
    requires |cells| > 0 && from <= i <= |cells| / 2 && StopsAt(cells, key, Probe(key, |cells|, i))
    requires forall j: nat | from <= j < i :: !StopsAt(cells, key, Probe(key, |cells|, j))
    ensures LookupFrom(cells, key, from) == At(Probe(key, |cells|, i))
    decreases i - from
  {
    if from < i { LookupSkips(cells, key, from + 1, i); }
  }

  class Table {
    var tableSize: nat
    var cells: array<Cell>

    ghost predicate Shape()
      reads this
    {
      tableSize == cells.Length && tableSize > 0
    }

    ghost predicate Valid()
      reads this, cells
    {
      Shape() && IsTable(cells[..])
    }

    /** The part of InitializeTable after the size check. */
    constructor (size: nat)
      requires size >= MIN_TABLE_SIZE
      ensures Valid() && fresh(cells) && AllEmpty(cells[..])
      ensures size <= tableSize && forall q | size <= q < tableSize :: !IsPrime(q)
    {
      var p := NextPrime(size);
      tableSize := p;
      var blank := new Cell[p];
      for i := 0 to p
        invariant forall j | 0 <= j < i :: blank[j].info == Empty
      {
        blank[i] := blank[i].(info := Empty);
      }
      cells := blank;
    }

    /** InitializeTable; the error exit is null. */
    static method InitializeTable(size: nat) returns (h: Table?)
      ensures h == null <==> size < 10
      ensures h != null ==> fresh(h) && fresh(h.cells) && h.Valid() && AllEmpty(h.cells[..])
      ensures h != null ==> size <= h.tableSize && forall q | size <= q < h.tableSize :: !IsPrime(q)
    {
      if size < MIN_TABLE_SIZE {
        return null;
      }
      h := new Table(size);
    }

    /** Find.  Reading a cell outside the table is the outcome Overrun. */
    method Find(key: nat) returns (r: Outcome)
      requires Shape()
      ensures r == Lookup(cells[..], key)
    {
      ghost var now := cells[..];
      var collisionNum: nat, currentPos: nat := 0, Hash(key, tableSize);
      DivModUnique(Hash(key, tableSize), tableSize, 0, Hash(key, tableSize));
      while cells[currentPos].info != Empty && cells[currentPos].element != key
        invariant collisionNum <= tableSize && currentPos == Probe(key, tableSize, collisionNum)
        invariant forall j: nat | j < collisionNum :: !StopsAt(now, key, Probe(key, tableSize, j))
        decreases tableSize - collisionNum
      {
        NextProbe(key, tableSize, collisionNum);
        collisionNum := collisionNum + 1;
        currentPos := currentPos + 2 * collisionNum - 1;
        if currentPos >= tableSize {
          currentPos := currentPos - tableSize;
        }
        if currentPos >= tableSize {
          OverrunIff(now, key, 0);
          return Overrun;
        }
      }
      if collisionNum > tableSize / 2 {
        ProbeFold(key, tableSize, tableSize - collisionNum);
      }
      LookupSkips(now, key, 0, collisionNum);
      r := At(currentPos);
    }

    /** Insert; the result says whether the search for the place stayed inside the table. */
    method Insert(key: nat) returns (ok: bool)
      requires Shape()
      modifies cells
      ensures ok == old(Lookup(cells[..], key)).At?
      ensures cells[..] == Inserted(old(cells[..]), key)
      ensures ok ==> cells[old(Lookup(cells[..], key)).pos] == Cell(key, Legitimate)
      ensures forall p | 0 <= p < cells.Length && old(Lookup(cells[..], key)) != At(p) :: cells[p] == old(cells[p])
    {
      var pos := Find(key);
      if pos == Overrun {
        return false;
      }
      if cells[pos.pos].info != Legitimate {
        cells[pos.pos] := Cell(key, Legitimate);
      }
      ok := true;
    }

    /** An insertion while at most half the cells are occupied, which always finds its place. */
    method InsertWithRoom(key: nat)
      requires Valid() && |Occupied(cells[..])| <= tableSize / 2
      modifies cells
      ensures Valid() && Elements(cells[..]) == old(Elements(cells[..])) + {key}
      ensures |Occupied(cells[..])| <= |old(Occupied(cells[..]))| + 1
    {
      HalfEmptyFinds(cells[..], key);
      InsertAdds(cells[..], key);
      var ok := Insert(key);
      assert ok;
    }

    /** Rehash of any table, well formed or not and however full. */
    method Rehash() returns (h: Table?)
      requires Shape()
      ensures h == null <==> 2 * tableSize < 10
      ensures h != null ==> fresh(h) && fresh(h.cells) && h.Valid() && Elements(h.cells[..]) == Elements(cells[..])
      ensures h != null ==> forall q | 2 * tableSize <= q < h.tableSize :: !IsPrime(q)
      ensures h != null ==> 2 * tableSize <= h.tableSize && |Occupied(h.cells[..])| <= h.tableSize / 2
    {
      h := InitializeTable(2 * tableSize);
      if h == null { return; }
      assert Occupied(h.cells[..]) == {};
      for i := 0 to tableSize
        invariant fresh(h) && fresh(h.cells) && h.Valid() && 2 * tableSize <= h.tableSize
        invariant forall q | 2 * tableSize <= q < h.tableSize :: !IsPrime(q)
        invariant Elements(h.cells[..]) == Elements(cells[..i])
        invariant |Occupied(h.cells[..])| <= i
      {
        ElementsSnoc(cells[..], i);
        if cells[i].info == Legitimate {
          h.InsertWithRoom(cells[i].element);
        }
      }
      assert cells[..tableSize] == cells[..];
    }
  }

  lemma ElementsSnoc(cells: seq<Cell>, i: nat)
    requires i < |cells|
    ensures Elements(cells[..i + 1]) ==
            Elements(cells[..i]) + if cells[i].info == Legitimate then {cells[i].element} else {}
  {
    var longer, shorter := cells[..i + 1], cells[..i];
    forall e | e in Elements(shorter) ensures e in Elements(longer) {
      var p: nat :| p < |shorter| && shorter[p].info == Legitimate && shorter[p].element == e;
      assert longer[p] == shorter[p];
    }
    forall e | e in Elements(longer) && !(cells[i].info == Legitimate && cells[i].element == e)
      ensures e in Elements(shorter)
    {
      var p: nat :| p < |longer| && longer[p].info == Legitimate && longer[p].element == e;
      assert longer[p] == shorter[p];
    }
    if cells[i].info == Legitimate { assert longer[i].element == cells[i].element; }
  }
}
