/** The expanding pool, as written: the constructor reserves a buffer but
    links none of its chunks, and allocate, on finding the free list empty,
    acquires a new buffer, links its chunks, makes it the one owned buffer
    (releasing the previous one) and then pops. Each operation is one
    atomic step; the mutex that serialises them is not modelled. */
module ExpandingPool {
  import opened FreeList
  import opened Slab

  /** The pool invariant, over the values of the pool's fields: the free
      chunks form a null-terminated chain without repeats, and no handed-out
      chunk is free. */
  ghost predicate Consistent(chunkSize: nat, poolSize: nat, memory: array?<Link>, head: Link,
                             free: seq<Chunk>, outstanding: set<Chunk>, Repr: set<array<Link>>)
    reads Repr
  {
    chunkSize >= LinkSize &&
    (memory != null ==> memory.Length == poolSize) &&
    IsChain(Repr, head, free) && Distinct(free) &&
    (forall c :: c in outstanding ==> c.buf in Repr && c.index < c.buf.Length) &&
    (forall i :: 0 <= i < |free| ==> free[i] !in outstanding)
  }

  class Pool {
    var chunkSize: nat
    var poolSize: nat
    /** The one owned buffer; null once released or moved away. */
    var memory: array?<Link>
    /** The first free chunk, or Null. */
    var head: Link
    /** The chunks on the free list, head first. */
    ghost var free: seq<Chunk>
    /** The chunks handed out by allocate and not yet given back. */
    ghost var outstanding: set<Chunk>
    /** Every buffer a free or handed-out chunk lies in, released ones
        included. */
    ghost var Repr: set<array<Link>>

    /** The fields satisfy the pool invariant. */
    ghost predicate Valid()
      reads this, Repr
    {
      Consistent(chunkSize, poolSize, memory, head, free, outstanding, Repr)
    }

    /** The chunk lies in the buffer the pool currently owns. */
    ghost predicate Owns(c: Chunk)
      reads this
    {
      c.buf == memory
    }

    /** Reserves a buffer of poolSize chunks but links none of them: the
        free list starts empty. */
    constructor (chunkSize: nat, poolSize: nat)
      requires chunkSize >= LinkSize
      ensures Valid() && memory != null && fresh(memory) && memory.Length == poolSize
      ensures this.chunkSize == chunkSize && this.poolSize == poolSize
      ensures head == Null && free == [] && outstanding == {}
    {
      this.chunkSize := chunkSize;
      this.poolSize := poolSize;
      memory := new Link[poolSize](_ => Null);
      head := Null;
      free := [];
      outstanding := {};
      Repr := {};
    }

    /** The move constructor: takes the sizes, the buffer and the free list
        of other and leaves other without buffer or free list. */
    constructor MoveFrom(other: Pool)
      requires other.Valid()
      modifies other
      ensures Valid() && other.Valid()
      ensures chunkSize == old(other.chunkSize) && poolSize == old(other.poolSize)
      ensures memory == old(other.memory) && head == old(other.head)
      ensures free == old(other.free) && outstanding == old(other.outstanding)
      ensures other.memory == null && other.head == Null
      ensures other.free == [] && other.outstanding == {}
      ensures other.chunkSize == old(other.chunkSize) && other.poolSize == old(other.poolSize)
    {
      chunkSize := other.chunkSize;
      poolSize := other.poolSize;
      memory := other.memory;
      head := other.head;
      free := other.free;
      outstanding := other.outstanding;
      Repr := other.Repr;
      new;
      other.memory := null;
      other.head := Null;
      other.free := [];
      other.outstanding := {};
      other.Repr := {};
    }

    /** Move assignment: as the move constructor, except that the buffer
        this pool owned is released, and moving a pool onto itself changes
        nothing. */
    method MoveAssign(other: Pool)
      requires other.Valid()
      modifies this, other
      ensures Valid() && other.Valid()
      ensures other == this ==>
        chunkSize == old(chunkSize) && poolSize == old(poolSize) && memory == old(memory) &&
        head == old(head) && free == old(free) && outstanding == old(outstanding)
      ensures other != this ==>
        chunkSize == old(other.chunkSize) && poolSize == old(other.poolSize) &&
        memory == old(other.memory) && head == old(other.head) &&
        free == old(other.free) && outstanding == old(other.outstanding) &&
        other.memory == null && other.head == Null && other.free == [] && other.outstanding == {} &&
        other.chunkSize == old(other.chunkSize) && other.poolSize == old(other.poolSize)
    {
      if this != other {
        var m, h := other.memory, other.head;
        ghost var f, o, R := other.free, other.outstanding, other.Repr;
        other.memory := null;
        other.head := Null;
        other.free := [];
        other.outstanding := {};
        other.Repr := {};
        chunkSize := other.chunkSize;
        poolSize := other.poolSize;
        memory := m;
        head := h;
        free := f;
        outstanding := o;
        Repr := R;
        assert unchanged(Repr);
      }
    }

    /** The growth step of allocate, taken when the free list is empty: a
        new buffer of poolSize chunks is acquired, its chunks are linked as
        the fixed pool's constructor links them, and it replaces the owned
        buffer. The previous buffer is released although chunks handed out
        from it are still held: afterwards no held chunk lies in owned
        storage. */
    method Grow()
      requires Valid() && free == []
      modifies this
      ensures Valid()
      ensures chunkSize == old(chunkSize) && poolSize == old(poolSize) && outstanding == old(outstanding)
      ensures memory != null && fresh(memory) && memory.Length == poolSize
      ensures free == SlabChunks(memory, poolSize) && Repr == old(Repr) + {memory}
      ensures forall c :: c in outstanding ==> !Owns(c)
    {
      var buf, top := NewLinkedSlab(poolSize);
      ChainWiden({buf}, Repr + {buf}, top, SlabChunks(buf, poolSize));
      SlabChunksDistinct(buf, poolSize);
      Repr := Repr + {buf};
      head := top;
      free := SlabChunks(buf, poolSize);
      memory := buf;
    }

    /** Pops the head of the free list, growing first when it is empty, so
        it never reports exhaustion. With poolSize 0 the growth links
        nothing and the source would dereference null, hence the
        precondition. */
    method Allocate() returns (r: Chunk)
      requires Valid() && (free != [] || poolSize > 0)
      modifies this
      ensures Valid()
      ensures chunkSize == old(chunkSize) && poolSize == old(poolSize)
      ensures r !in old(outstanding) && outstanding == old(outstanding) + {r}
      ensures old(free) != [] ==>
        Pop(old(free)) == Popped(r, free) && memory == old(memory) && Repr == old(Repr)
      ensures old(free) == [] ==>
        memory != null && fresh(memory) && memory.Length == poolSize &&
        Pop(SlabChunks(memory, poolSize)) == Popped(r, free) &&
        r == Chunk(memory, poolSize - 1) && Owns(r) &&
        (forall c :: c in old(outstanding) ==> !Owns(c))
    {
      if head == Null {
        Grow();
      }
      ChainPop(Repr, head, free);
      PopApart(free, outstanding);
      r := head.to;
      head := r.buf[r.index];
      free := free[1..];
      outstanding := outstanding + {r};
    }

    /** Pushes p back: p's link field gets the old head and p becomes the
        head. The pool does not check p; the caller must pass a chunk it
        holds from this pool, which need not lie in the buffer owned now. */
    method Deallocate(p: Chunk)
      requires Valid() && p in outstanding
      modifies this, p.buf
      ensures Valid()
      ensures chunkSize == old(chunkSize) && poolSize == old(poolSize)
      ensures memory == old(memory) && Repr == old(Repr)
      ensures head == Next(p) && free == Push(old(free), p) && outstanding == old(outstanding) - {p}
      ensures p.buf[p.index] == old(head)
      ensures forall i :: 0 <= i < p.buf.Length && i != p.index ==> p.buf[i] == old(p.buf[i])
    {
      ghost var links := LinkFields(Repr, free);
      p.buf[p.index] := head;
      assert LinkFields(Repr, free) == links;
      ChainPush(Repr, head, free, p);
      head := Next(p);
      PushApart(free, outstanding, p);
      free := Push(free, p);
      outstanding := outstanding - {p};
    }

    /** Releases the owned buffer and empties the free list; every chunk
        handed out before becomes invalid. */
    method Clear()
      requires Valid()
      modifies this
      ensures Valid()
      ensures chunkSize == old(chunkSize) && poolSize == old(poolSize)
      ensures memory == null && head == Null && free == [] && outstanding == {}
    {
      memory := null;
      head := Null;
      free := [];
      outstanding := {};
    }
  }

  /** deallocate(p) followed by allocate() returns p without growing and
      leaves the free list and the owned buffer as they were. */
  method ReuseAfterDeallocate(pool: Pool, p: Chunk) returns (r: Chunk)
    requires pool.Valid() && p in pool.outstanding
    modifies pool, p.buf
    ensures pool.Valid() && r == p
    ensures pool.memory == old(pool.memory) && pool.head == old(pool.head)
    ensures pool.free == old(pool.free) && pool.outstanding == old(pool.outstanding)
  {
    pool.Deallocate(p);
    r := pool.Allocate();
  }

  /** After clear, the next allocation grows a fresh buffer. */
  method AllocateAfterClear(pool: Pool) returns (r: Chunk)
    requires pool.Valid() && pool.poolSize > 0
    modifies pool
    ensures pool.Valid() && pool.poolSize == old(pool.poolSize)
    ensures pool.memory != null && fresh(pool.memory)
    ensures r == Chunk(pool.memory, pool.poolSize - 1)
  {
    pool.Clear();
    r := pool.Allocate();
  }

  /** Allocating as many times as there are chunks on a free list that is
      the first k chunks of buf, as growth links them: the calls return that
      list, in order, without growing, and leave the list empty. */
  method DrainSlab(pool: Pool, ghost buf: array<Link>, k: nat) returns (got: seq<Chunk>)
    requires pool.Valid() && pool.memory == buf && pool.free == SlabChunks(buf, k)
    modifies pool
    ensures pool.Valid() && pool.poolSize == old(pool.poolSize)
    ensures pool.memory == buf && pool.free == [] && got == SlabChunks(buf, k)
  {
    got := [];
    for i := 0 to k
      invariant pool.Valid() && pool.poolSize == old(pool.poolSize) && pool.memory == buf
      invariant |got| == i && pool.free == SlabChunks(buf, k - i)
      invariant forall j :: 0 <= j < i ==> got[j] == Chunk(buf, k - 1 - j)
    {
      var r := pool.Allocate();
      got := got + [r];
    }
  }

  /** A new pool of n chunks, allocated from n times and then once more:
      the first allocation grows, the n allocations hand out every chunk of
      that one buffer, each once, and the next one grows into another
      buffer. */
  method DrainAfterGrowth(n: nat) returns (got: seq<Chunk>, next: Chunk)
    requires n > 0
    ensures |got| == n && Distinct(got)
    ensures forall c :: c in got <==> c.buf == got[0].buf && c.index < n
    ensures next.buf != got[0].buf
  {
    var pool := new Pool(LinkSize, n);
    var first := pool.Allocate();
    var rest := DrainSlab(pool, pool.memory, n - 1);
    got := [first] + rest;
    assert got == SlabChunks(first.buf, n);
    SlabChunksCover(first.buf, n);
    next := pool.Allocate();
  }

  /** The growth step links every chunk of the buffer it acquires. If that
      buffer is one released by an earlier growth, storage a caller may
      reuse, each chunk of it the caller still holds goes back on the free
      list; with one chunk per buffer, the next allocation hands it out a
      second time. */
  lemma RegrowthRelinksHeld(buf: array<Link>, n: nat, held: Chunk)
    requires held.buf == buf && held.index < n
    ensures held in SlabChunks(buf, n)
    ensures n == 1 ==> Pop(SlabChunks(buf, n)) == Popped(held, [])
  {
    SlabChunksCover(buf, n);
  }

  /** Two allocations from a new pool of one chunk: the first grows, the
      second finds the list empty and grows again, releasing the buffer the
      first chunk lies in while that chunk is still held. */
  method DanglingAfterGrowth() returns (pool: Pool, first: Chunk, second: Chunk)
    ensures pool.Valid() && first in pool.outstanding && second in pool.outstanding
    ensures first != second && pool.Owns(second) && !pool.Owns(first)
  {
    pool := new Pool(LinkSize, 1);
    first := pool.Allocate();
    second := pool.Allocate();
  }
}
