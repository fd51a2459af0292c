/** The memory of the compiler's syntax trees: blocks from a chain of arenas. */
module Arena {

  /** ZEND_MM_ALIGNMENT */
  const ALIGNMENT := 8

  /** ZEND_MM_ALIGNED_SIZE(sizeof(zend_arena)): three pointers */
  const HEADER := 24

  /** ZEND_MM_ALIGNED_SIZE: clear the low three bits of size + 7. */
  function AlignedSize(size: nat): (r: nat)
    ensures size <= r < size + 8 && r % 8 == 0
  {
    size + (ALIGNMENT - 1) - (size + (ALIGNMENT - 1)) % ALIGNMENT
  }

  datatype Block = Block(base: nat, len: nat)

  /** An arena: a header, the part in use, up to ptr, and free space up to end. */
  datatype Region = Region(base: nat, ptr: nat, end: nat)

  ghost predicate Apart(a: Block, b: Block) {
    a.base + a.len <= b.base || b.base + b.len <= a.base
  }

  ghost predicate Separate(r: Region, s: Region) {
    r.end <= s.base || s.end <= r.base
  }

  ghost predicate IsRegion(r: Region) {
    r.base + HEADER <= r.ptr <= r.end && r.base % ALIGNMENT == 0 && r.ptr % ALIGNMENT == 0
  }

  ghost predicate Holds(r: Region, b: Block) {
    r.base + HEADER <= b.base && b.base + b.len <= r.ptr && b.base % ALIGNMENT == 0
  }

  /** Block k lies in region homes[k]; no two regions and no two blocks overlap. */
  ghost predicate Placed(blocks: seq<Block>, homes: seq<nat>, regions: seq<Region>) {
    && (forall i | 0 <= i < |regions| :: IsRegion(regions[i]))
    && (forall i, j | 0 <= i < j < |regions| :: Separate(regions[i], regions[j]))
    && |homes| == |blocks|
    && (forall k | 0 <= k < |blocks| :: homes[k] < |regions| && Holds(regions[homes[k]], blocks[k]))
    && (forall k, l | 0 <= k < l < |blocks| :: Apart(blocks[k], blocks[l]))
  }

  lemma AddRegion(blocks: seq<Block>, homes: seq<nat>, regions: seq<Region>, r: Region)
    requires Placed(blocks, homes, regions) && IsRegion(r) && forall s | s in regions :: Separate(s, r)
    ensures Placed(blocks, homes, regions + [r])
  {
  }

  /** A block at the start of the free space of a region. */
  lemma PlaceBlock(blocks: seq<Block>, homes: seq<nat>, regions: seq<Region>, h: nat, b: Block)
    requires Placed(blocks, homes, regions) && h < |regions|
    requires b.base == regions[h].ptr && b.base + b.len <= regions[h].end && b.len % ALIGNMENT == 0
    ensures Placed(blocks + [b], homes + [h], regions[h := regions[h].(ptr := b.base + b.len)])
  {
    forall k | 0 <= k < |blocks| ensures Apart(blocks[k], b) {
      assert Holds(regions[homes[k]], blocks[k]);
      if homes[k] < h { assert Separate(regions[homes[k]], regions[h]); }
      if h < homes[k] { assert Separate(regions[h], regions[homes[k]]); }
    }
    assert IsRegion(regions[h].(ptr := b.base + b.len));
  }

  lemma PlaceInNew(blocks: seq<Block>, homes: seq<nat>, regions: seq<Region>, r: Region, b: Block)
    requires Placed(blocks, homes, regions) && IsRegion(r) && forall s | s in regions :: Separate(s, r)
    requires b.base == r.ptr && b.base + b.len <= r.end && b.len % ALIGNMENT == 0
    ensures Placed(blocks + [b], homes + [|regions|], regions + [r.(ptr := b.base + b.len)])
  {
    AddRegion(blocks, homes, regions, r);
    PlaceBlock(blocks, homes, regions + [r], |regions|, b);
    assert (regions + [r])[|regions| := r.(ptr := b.base + b.len)] == regions + [r.(ptr := b.base + b.len)];
  }

  /** zend_arena, at address base. */
  class ArenaHeader {
    const base: nat
    var ptr: nat
    const end: nat
    const prev: ArenaHeader?

    constructor (base: nat, ptr: nat, end: nat, prev: ArenaHeader?)
      ensures this.base == base && this.ptr == ptr && this.end == end && this.prev == prev
    {
      this.base, this.ptr, this.end, this.prev := base, ptr, end, prev;
    }
  }

  ghost function RegionsOf(chain: seq<ArenaHeader>): seq<Region>
    reads chain
  {
    seq(|chain|, i requires 0 <= i < |chain| reads chain => Region(chain[i].base, chain[i].ptr, chain[i].end))
  }

  class Arenas {
    var arena: ArenaHeader             // *arena_ptr
    ghost var chain: seq<ArenaHeader>  // oldest first
    ghost var blocks: seq<Block>       // every block handed out so far
    ghost var homes: seq<nat>          // the index in chain of the arena that holds it

    ghost function Regions(): seq<Region>
      reads this`chain, chain
    {
      RegionsOf(chain)
    }

    /** The arenas, newest first along prev. */
    ghost predicate Chained()
      reads this`arena, this`chain
    {
      && chain != [] && chain[|chain| - 1] == arena && chain[0].prev == null
      && (forall i | 0 < i < |chain| :: chain[i].prev == chain[i - 1])
      && (forall i | 0 <= i < |chain| - 1 :: chain[i] != arena)
    }

    ghost predicate Valid()
      reads this, chain
    {
      Chained() && Placed(blocks, homes, Regions())
    }

    /** A first arena of the given size. */
    constructor (base: nat, size: nat)
      requires base % ALIGNMENT == 0 && HEADER <= size
      ensures Valid() && blocks == [] && Regions() == [Region(base, base + HEADER, base + size)]
    {
      arena := new ArenaHeader(base, base + HEADER, base + size, null);
      new;
      chain, blocks, homes := [arena], [], [];
    }

    /** How large an arena that replaces the current one is. */
    function ArenaSize(size: nat): (r: nat)
      reads this`arena
      ensures HEADER + AlignedSize(size) <= r && arena.end - arena.base <= r
      ensures r == HEADER + AlignedSize(size) || r == arena.end - arena.base
    {
      if AlignedSize(size) + HEADER > arena.end - arena.base then AlignedSize(size) + HEADER
      else arena.end - arena.base
    }

    predicate Fits(size: nat)
      reads this`arena, arena`ptr
    {
      arena.ptr + AlignedSize(size) <= arena.end
    }

    /** Takes the next bytes of the current arena. */
    method Bump(asize: nat) returns (ptr: nat)
      requires Valid() && arena.ptr + asize <= arena.end && asize % ALIGNMENT == 0
      modifies this`blocks, this`homes, arena`ptr
      ensures Valid() && ptr == old(arena.ptr) && blocks == old(blocks) + [Block(ptr, asize)]
      ensures var last := |chain| - 1;
              Regions() == old(Regions())[last := old(Regions())[last].(ptr := ptr + asize)]
    {
      ghost var regions, last := Regions(), |chain| - 1;
      assert regions[last] == Region(arena.base, arena.ptr, arena.end);
      ptr := arena.ptr;
      PlaceBlock(blocks, homes, regions, last, Block(ptr, asize));
      arena.ptr := ptr + asize;
      blocks, homes := blocks + [Block(ptr, asize)], homes + [last];
      assert Regions() == regions[last := regions[last].(ptr := ptr + asize)];
    }

    /** Puts a new arena, with its first bytes taken, in front of the current one. */
    method Replace(asize: nat, arenaSize: nat, at: nat) returns (ptr: nat)
      requires Valid() && at % ALIGNMENT == 0 && asize % ALIGNMENT == 0 && HEADER + asize <= arenaSize
      requires forall r | r in Regions() :: Separate(r, Region(at, at, at + arenaSize))
      modifies this
      ensures Valid() && ptr == at + HEADER && blocks == old(blocks) + [Block(ptr, asize)]
      ensures Regions() == old(Regions()) + [Region(at, ptr + asize, at + arenaSize)]
      ensures fresh(arena) && arena.prev == old(arena) && arena.base == at
    {
      ghost var regions := Regions();
      ptr := at + HEADER;
      PlaceInNew(blocks, homes, regions, Region(at, ptr, at + arenaSize), Block(ptr, asize));
      arena := new ArenaHeader(at, ptr + asize, at + arenaSize, arena);
      chain := chain + [arena];
      blocks, homes := blocks + [Block(ptr, asize)], homes + [|regions|];
      assert Regions() == regions + [Region(at, ptr + asize, at + arenaSize)];
    }

    /** zend_arena_alloc; `at` is where emalloc puts a new arena if one is needed. */
    method Alloc(size: nat, at: nat) returns (ptr: nat)
      requires Valid() && at % ALIGNMENT == 0
      requires Fits(size) || forall r | r in Regions() :: Separate(r, Region(at, at, at + ArenaSize(size)))
      modifies this, arena`ptr
      ensures Valid() && blocks == old(blocks) + [Block(ptr, AlignedSize(size))]
      ensures ptr == if old(Fits(size)) then old(arena.ptr) else at + HEADER
      ensures arena == old(arena) <==> AlignedSize(size) <= old(arena.end - arena.ptr)
      ensures arena == old(arena) || (fresh(arena) && arena.prev == old(arena) && arena.base == at)
      ensures Regions() ==
              if old(Fits(size))
              then old(Regions())[|old(chain)| - 1 := old(Regions())[|old(chain)| - 1].(ptr := ptr + AlignedSize(size))]
              else old(Regions()) + [Region(at, ptr + AlignedSize(size), at + old(ArenaSize(size)))]
    {
      var asize := AlignedSize(size);
      if asize <= arena.end - arena.ptr {
        ptr := Bump(asize);
      } else {
        ptr := Replace(asize, ArenaSize(size), at);
      }
    }
  }
}

/** A list of syntax trees that doubles its room at powers of two. */
module AstList {
  import opened Words

  /** is_power_of_two */
  predicate IsPowerOfTwo(n: nat) {
    n > 0 && And(n, n - 1) == 0
  }

  /** n & (n - 1) is 0 exactly for the powers of two. */
  lemma {:induction false} PowerOfTwoIff(n: nat)
    ensures IsPowerOfTwo(n) <==> exists k: nat :: n == Pow2(k)
  {
    if n == 1 {
      assert n == Pow2(0);
    } else if n > 1 {
      HalfIsPower(n);
      PowerOfTwoIff(n / 2);
      if IsPowerOfTwo(n) {
        var k: nat :| n / 2 == Pow2(k);
        assert n == Pow2(k + 1);
      }
      forall k: nat | n == Pow2(k) ensures IsPowerOfTwo(n) {
        assert n == 2 * Pow2(k - 1);
        assert n / 2 == Pow2(k - 1) && n % 2 == 0;
      }
    }
  }

  /** The least power of two from 4 on that is at least n. */
  function Room(n: nat): (r: nat)
    ensures 4 <= r && n <= r
  {
    if n <= 4 then 4 else 2 * Room((n + 1) / 2)
  }

  lemma HalfIsPower(n: nat)
    requires n >= 2
    ensures IsPowerOfTwo(n) <==> n % 2 == 0 && IsPowerOfTwo(n / 2)
  {
    if n % 2 == 1 {
      AndSelf(n / 2);
    }
  }

  /** The room is used up exactly at the powers of two, and one more child doubles it. */
  lemma {:induction false} RoomStep(n: nat)
    ensures n >= 4 ==> (IsPowerOfTwo(n) <==> Room(n) == n)
    ensures Room(n + 1) == if n >= 4 && IsPowerOfTwo(n) then 2 * n else Room(n)
  {
    if n > 4 {
      HalfIsPower(n);
      RoomStep(n / 2);
      if n % 2 == 1 { RoomStep((n - 1) / 2); }
    } else if n == 4 {
      HalfIsPower(4);
      HalfIsPower(2);
    }
  }

  lemma {:induction false} RoomBound(n: nat)
    ensures n > 2 ==> Room(n) < 2 * n
  {
    if n > 4 { RoomBound((n + 1) / 2); }
  }

  class List<T(0)> {
    var children: nat
    var child: array<T>
    ghost var copied: nat     // how many children were copied so far

    ghost predicate Valid()
      reads this
    {
      children <= child.Length == Room(children) && copied + 4 == child.Length
    }

    ghost function Contents(): seq<T>
      requires Valid()
      reads this, child
    {
      child[..children]
    }

    /** A list with room for four children. */
    constructor ()
      ensures Valid() && Contents() == [] && fresh(child)
    {
      children, child, copied := 0, new T[4], 0;
    }

    /** Moves the children to an array twice as large. */
    method Enlarge()
      requires children == child.Length > 0
      modifies this`child, this`copied
      ensures fresh(child) && child.Length == 2 * children && copied == old(copied) + children
      ensures child[..children] == old(child[..children])
    {
      var larger := new T[children * 2];
      forall i | 0 <= i < children { larger[i] := child[i]; }
      child := larger;
      copied := copied + children;
    }

    /** zend_ast_list_add: there is always room, and n additions copy fewer than 2 * n children. */
    method Add(op: T)
      requires Valid()
      modifies this, child
      ensures Valid() && Contents() == old(Contents()) + [op]
      ensures child == old(child) || fresh(child)
      ensures child.Length == if old(children) >= 4 && IsPowerOfTwo(old(children)) then 2 * old(children)
                              else old(child.Length)
      ensures copied < 2 * children
    {
      RoomStep(children);
      RoomBound(children + 1);
      if children >= 4 && IsPowerOfTwo(children) {
        Enlarge();
      }
      child[children] := op;
      children := children + 1;
    }
  }
}
