/** The fixed-capacity pool: one buffer of poolSize chunks, linked into a
    free list once by the constructor; allocation fails for good once every
    chunk is handed out, until one is given back.

    A chunk is named by its index in the buffer. The buffer is modelled by
    its link fields alone: memory[c] is what the first pointer-sized bytes
    of chunk c hold while c is free, the index of the next free chunk or
    Null. */
module FixedPool {
  import opened FreeList

  /** The null pointer, as a chunk index. */
  const Null: int := -1

  /** What allocate hands back: a chunk, or the bad_alloc it throws. */
  datatype Allocation = Allocated(chunk: nat) | BadAlloc

  /** The chain that starts at head and follows links visits exactly the
      chunks xs, in order, each once, and ends in Null. */
  ghost predicate IsChain(links: seq<int>, head: int, xs: seq<nat>) {
    (forall i :: 0 <= i < |xs| ==> xs[i] < |links|) &&
    (if |xs| == 0 then head == Null else head == xs[0] && links[xs[|xs| - 1]] == Null) &&
    (forall i :: 0 <= i < |xs| - 1 ==> links[xs[i]] == xs[i + 1]) &&
    Distinct(xs)
  }

  class Pool {
    var chunkSize: nat
    var poolSize: nat
    /** The owned buffer; null once released or moved away. */
    var memory: array?<int>
    /** Index of the first free chunk, or Null. */
    var head: int
    /** The chunks on the free list, head first. */
    ghost var free: seq<nat>
    /** The chunks handed out by allocate and not yet given back. */
    ghost var outstanding: set<nat>

    /** Every chunk of the buffer is either free or handed out, never both,
        and the free ones form a null-terminated chain without repeats. */
    ghost predicate Valid()
      reads this, memory
    {
      chunkSize >= LinkSize &&
      (memory == null ==> head == Null && free == [] && outstanding == {}) &&
      (memory != null ==>
        memory.Length == poolSize &&
        IsChain(memory[..], head, free) &&
        (forall c :: c in outstanding ==> c < poolSize) &&
        (forall c: nat :: c < poolSize ==> (c in outstanding <==> c !in free)))
    }

    /** Reserves the buffer and links its chunks 0, 1, ..., poolSize-1 onto
        the empty list, so the last one is the head. */
    constructor (chunkSize: nat, poolSize: nat)
      requires chunkSize >= LinkSize
      ensures Valid() && fresh(memory)
      ensures this.chunkSize == chunkSize && this.poolSize == poolSize
      ensures free == Descending(poolSize) && outstanding == {}
    {
      this.chunkSize := chunkSize;
      this.poolSize := poolSize;
      var buf := new int[poolSize];
      memory := buf;
      head := Null;
      free := [];
      outstanding := {};
      new;
      for i := 0 to poolSize
        invariant memory == buf && this.poolSize == poolSize && this.chunkSize == chunkSize
        invariant outstanding == {}
        invariant head == i - 1
        invariant free == Descending(i)
        invariant forall j :: 0 <= j < i ==> buf[j] == j - 1
      {
        buf[i] := head;
        head := i;
        free := [i] + free;
      }
      DescendingCovers(poolSize);
    }

    /** The move constructor: takes the sizes, the buffer and the free list
        of other and leaves other without buffer or free list. */
    constructor MoveFrom(other: Pool)
      requires other.Valid()
      modifies other
      ensures Valid() && other.Valid()
      ensures chunkSize == old(other.chunkSize) && poolSize == old(other.poolSize)
      ensures memory == old(other.memory) && head == old(other.head)
      ensures free == old(other.free) && outstanding == old(other.outstanding)
      ensures other.memory == null && other.head == Null
      ensures other.free == [] && other.outstanding == {}
      ensures other.chunkSize == old(other.chunkSize) && other.poolSize == old(other.poolSize)
    {
      chunkSize := other.chunkSize;
      poolSize := other.poolSize;
      memory := other.memory;
      head := other.head;
      free := other.free;
      outstanding := other.outstanding;
      new;
      other.memory := null;
      other.head := Null;
      other.free := [];
      other.outstanding := {};
    }

    /** Move assignment: as the move constructor, except that the buffer
        this pool owned is released, and moving a pool onto itself changes
        nothing. */
    method MoveAssign(other: Pool)
      requires other.Valid()
      modifies this, other
      ensures Valid() && other.Valid()
      ensures other == this ==>
        chunkSize == old(chunkSize) && poolSize == old(poolSize) && memory == old(memory) &&
        head == old(head) && free == old(free) && outstanding == old(outstanding)
      ensures other != this ==>
        chunkSize == old(other.chunkSize) && poolSize == old(other.poolSize) &&
        memory == old(other.memory) && head == old(other.head) &&
        free == old(other.free) && outstanding == old(other.outstanding) &&
        other.memory == null && other.head == Null && other.free == [] && other.outstanding == {} &&
        other.chunkSize == old(other.chunkSize) && other.poolSize == old(other.poolSize)
    {
      if this != other {
        chunkSize := other.chunkSize;
        poolSize := other.poolSize;
        memory := other.memory;
        head := other.head;
        free := other.free;
        outstanding := other.outstanding;
        other.memory := null;
        other.head := Null;
        other.free := [];
        other.outstanding := {};
      }
    }

    /** Pops the head of the free list, or fails with bad_alloc, changing
        nothing, when the list is empty. No link field is written. */
    method Allocate() returns (r: Allocation)
      requires Valid()
      modifies this
      ensures Valid()
      ensures chunkSize == old(chunkSize) && poolSize == old(poolSize) && memory == old(memory)
      ensures match Pop(old(free))
        case Empty => r == BadAlloc && head == old(head) && free == old(free) && outstanding == old(outstanding)
        case Popped(c, rest) => r == Allocated(c) && free == rest && outstanding == old(outstanding) + {c}
      ensures r.Allocated? ==> r.chunk < poolSize && r.chunk !in old(outstanding)
    {
      if head == Null {
        return BadAlloc;
      }
      var chunk := head;
      head := memory[chunk];
      free := free[1..];
      outstanding := outstanding + {chunk};
      r := Allocated(chunk);
    }

    /** Pushes p back: p's link field gets the old head and p becomes the
        head. The pool does not check p; the caller must pass a chunk it
        holds from this pool. */
    method Deallocate(p: nat)
      requires Valid() && p in outstanding
      modifies this, memory
      ensures Valid()
      ensures chunkSize == old(chunkSize) && poolSize == old(poolSize) && memory == old(memory)
      ensures head == p && free == Push(old(free), p) && outstanding == old(outstanding) - {p}
      ensures memory != null && memory[p] == old(head)
      ensures forall c :: 0 <= c < memory.Length && c != p ==> memory[c] == old(memory[c])
    {
      memory[p] := head;
      head := p;
      PushFresh(free, p);
      free := Push(free, p);
      outstanding := outstanding - {p};
    }

    /** Releases the buffer and empties the free list; every chunk handed
        out before becomes invalid. */
    method Clear()
      requires Valid()
      modifies this
      ensures Valid()
      ensures chunkSize == old(chunkSize) && poolSize == old(poolSize)
      ensures memory == null && head == Null && free == [] && outstanding == {}
    {
      memory := null;
      head := Null;
      free := [];
      outstanding := {};
    }
  }

  /** The first poolSize allocations from a fresh pool hand out every chunk
      of the buffer, each once; the free list is then empty, so the next
      allocation throws. */
  lemma FreshPoolAllocations(n: nat)
    ensures var (got, left) := PopMany(Descending(n), n);
      |got| == n && Distinct(got) && (forall c :: c in got ==> c < n) &&
      (forall c: nat :: c < n ==> c in got) && Pop(left) == Empty
  {
    DescendingCovers(n);
  }

  /** A new pool of n chunks, allocated from n times and then once more:
      the first n allocations hand out every chunk of the buffer, each
      once, and the next one throws bad_alloc. */
  method DrainFreshPool(n: nat) returns (got: seq<nat>, last: Allocation)
    ensures |got| == n && Distinct(got)
    ensures forall c: nat :: c in got <==> c < n
    ensures last == BadAlloc
  {
    var pool := new Pool(LinkSize, n);
    got := [];
    for i := 0 to n
      invariant pool.Valid() && pool.poolSize == n
      invariant got == Descending(n)[..i] && pool.free == Descending(n)[i..]
    {
      var r := pool.Allocate();
      assert Pop(Descending(n)[i..]) == Popped(Descending(n)[i], Descending(n)[i + 1..]);
      got := got + [r.chunk];
    }
    assert got == Descending(n);
    DescendingCovers(n);
    last := pool.Allocate();
  }

  /** deallocate(p) followed by allocate() returns p and leaves the free
      list and the handed-out set as they were. */
  method ReuseAfterDeallocate(pool: Pool, p: nat) returns (r: Allocation)
    requires pool.Valid() && p in pool.outstanding
    modifies pool, pool.memory
    ensures pool.Valid() && r == Allocated(p)
    ensures pool.head == old(pool.head) && pool.free == old(pool.free)
    ensures pool.outstanding == old(pool.outstanding)
  {
    pool.Deallocate(p);
    r := pool.Allocate();
  }

  /** After clear, allocation throws. */
  method AllocateAfterClear(pool: Pool) returns (r: Allocation)
    requires pool.Valid()
    modifies pool
    ensures pool.Valid() && r == BadAlloc && pool.memory == null
  {
    pool.Clear();
    r := pool.Allocate();
  }
}
