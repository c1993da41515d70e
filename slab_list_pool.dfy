/** The expanding pool with its growth corrected: the new buffer is
    appended to a list of owned buffers instead of replacing the one owned
    buffer, so no buffer is released while the pool lives and every chunk
    handed out stays in owned storage. Everything else is as in
    ExpandingPool. */
module SlabListPool {
  import opened FreeList
  import opened Slab

  /** The buffers of the list slabs, as a set. */
  ghost function Buffers(slabs: seq<array<Link>>): set<array<Link>>
    decreases |slabs|
  {
    if |slabs| == 0 then {} else Buffers(slabs[..|slabs| - 1]) + {slabs[|slabs| - 1]}
  }

  /** Buffers(slabs) holds exactly the buffers listed in slabs. */
  lemma {:induction false} BuffersListed(slabs: seq<array<Link>>)
    ensures forall s :: s in Buffers(slabs) <==> s in slabs
    decreases |slabs|
  {
    if |slabs| > 0 {
      var front := slabs[..|slabs| - 1];
      BuffersListed(front);
      assert slabs == front + [slabs[|slabs| - 1]];
    }
  }

  /** The pool invariant, over the values of the pool's fields: the free
      chunks form a null-terminated chain without repeats, every chunk free
      or handed out lies in an owned buffer, and no handed-out chunk is
      free. */
  ghost predicate Consistent(chunkSize: nat, poolSize: nat, slabs: seq<array<Link>>, head: Link,
                             free: seq<Chunk>, outstanding: set<Chunk>, Repr: set<array<Link>>)
    reads Repr
  {
    chunkSize >= LinkSize &&
    Repr == Buffers(slabs) &&
    (forall i :: 0 <= i < |slabs| ==> slabs[i].Length == poolSize) &&
    IsChain(Repr, head, free) && Distinct(free) &&
    (forall c :: c in outstanding ==> c.buf in Repr && c.index < c.buf.Length) &&
    (forall i :: 0 <= i < |free| ==> free[i] !in outstanding)
  }

  /** Growth keeps the invariant: when the free list is empty, appending a
      new buffer of poolSize chunks, linked as growth links them, and making
      its chain the free list gives a consistent pool with the same
      handed-out chunks. */
  lemma GrowthConsistent(chunkSize: nat, poolSize: nat, slabs: seq<array<Link>>, head: Link,
                         outstanding: set<Chunk>, Repr: set<array<Link>>, buf: array<Link>, top: Link)
    requires Consistent(chunkSize, poolSize, slabs, head, [], outstanding, Repr)
    requires buf !in Repr && buf.Length == poolSize
    requires IsChain({buf}, top, SlabChunks(buf, poolSize))
    ensures Consistent(chunkSize, poolSize, slabs + [buf], top, SlabChunks(buf, poolSize),
                       outstanding, Repr + {buf})
  {
    assert (slabs + [buf])[..|slabs|] == slabs;
    ChainWiden({buf}, Repr + {buf}, top, SlabChunks(buf, poolSize));
    SlabChunksDistinct(buf, poolSize);
  }

  class Pool {
    var chunkSize: nat
    var poolSize: nat
    /** The owned buffers, oldest first; growth only appends. */
    var slabs: seq<array<Link>>
    /** The first free chunk, or Null. */
    var head: Link
    /** The chunks on the free list, head first. */
    ghost var free: seq<Chunk>
    /** The chunks handed out by allocate and not yet given back. */
    ghost var outstanding: set<Chunk>

    /** The owned buffers, as a set. */
    ghost var Repr: set<array<Link>>

    /** The fields satisfy the pool invariant. */
    ghost predicate Valid()
      reads this, Repr
    {
      Consistent(chunkSize, poolSize, slabs, head, free, outstanding, Repr)
    }

    /** Reserves a first buffer of poolSize chunks but, as the source does,
        links none of them. */
    constructor (chunkSize: nat, poolSize: nat)
      requires chunkSize >= LinkSize
      ensures Valid() && |slabs| == 1 && fresh(slabs[0])
      ensures this.chunkSize == chunkSize && this.poolSize == poolSize
      ensures head == Null && free == [] && outstanding == {}
    {
      this.chunkSize := chunkSize;
      this.poolSize := poolSize;
      var first := new Link[poolSize](_ => Null);
      slabs := [first];
      Repr := {first};
      head := Null;
      free := [];
      outstanding := {};
    }

    /** The growth step, corrected: the new buffer is linked as before but
        appended to the owned buffers, which are all kept. */
    method Grow()
      requires Valid() && free == []
      modifies this
      ensures Valid()
      ensures chunkSize == old(chunkSize) && poolSize == old(poolSize) && outstanding == old(outstanding)
      ensures |slabs| == |old(slabs)| + 1 && slabs[..|old(slabs)|] == old(slabs)
      ensures fresh(slabs[|slabs| - 1]) && free == SlabChunks(slabs[|slabs| - 1], poolSize)
    {
      var buf, top := NewLinkedSlab(poolSize);
      ghost var (owned, oldHead, oldRepr) := (slabs, head, Repr);
      slabs := slabs + [buf];
      Repr := Repr + {buf};
      head := top;
      free := SlabChunks(buf, poolSize);
      assert unchanged(oldRepr);
      GrowthConsistent(chunkSize, poolSize, owned, oldHead, outstanding, oldRepr, buf, top);
    }

    /** Pops the head of the free list, growing first when it is empty. The
        buffers owned before are kept, in order, so chunks already handed
        out stay in owned storage. */
    method Allocate() returns (r: Chunk)
      requires Valid() && (free != [] || poolSize > 0)
      modifies this
      ensures Valid()
      ensures chunkSize == old(chunkSize) && poolSize == old(poolSize)
      ensures r !in old(outstanding) && outstanding == old(outstanding) + {r}
      ensures |old(slabs)| <= |slabs| && slabs[..|old(slabs)|] == old(slabs)
      ensures forall c :: c in old(outstanding) ==> c.buf in Repr
      ensures old(free) != [] ==> Pop(old(free)) == Popped(r, free) && slabs == old(slabs)
      ensures old(free) == [] ==>
        |slabs| == |old(slabs)| + 1 && fresh(slabs[|slabs| - 1]) &&
        Pop(SlabChunks(slabs[|slabs| - 1], poolSize)) == Popped(r, free) &&
        r == Chunk(slabs[|slabs| - 1], poolSize - 1)
    {
      if head == Null {
        Grow();
      }
      ChainPop(Repr, head, free);
      PopApart(free, outstanding);
      r := head.to;
      head := r.buf[r.index];
      free := free[1..];
      outstanding := outstanding + {r};
    }

    /** Pushes p back, as in ExpandingPool. */
    method Deallocate(p: Chunk)
      requires Valid() && p in outstanding
      modifies this, p.buf
      ensures Valid()
      ensures chunkSize == old(chunkSize) && poolSize == old(poolSize) && slabs == old(slabs)
      ensures head == Next(p) && free == Push(old(free), p) && outstanding == old(outstanding) - {p}
      ensures p.buf[p.index] == old(head)
      ensures forall i :: 0 <= i < p.buf.Length && i != p.index ==> p.buf[i] == old(p.buf[i])
    {
      ghost var links := LinkFields(Repr, free);
      p.buf[p.index] := head;
      assert LinkFields(Repr, free) == links;
      ChainPush(Repr, head, free, p);
      head := Next(p);
      PushApart(free, outstanding, p);
      free := Push(free, p);
      outstanding := outstanding - {p};
    }

    /** Releases every owned buffer and empties the free list. */
    method Clear()
      requires Valid()
      modifies this
      ensures Valid()
      ensures chunkSize == old(chunkSize) && poolSize == old(poolSize)
      ensures slabs == [] && head == Null && free == [] && outstanding == {}
    {
      slabs := [];
      Repr := {};
      head := Null;
      free := [];
      outstanding := {};
    }
  }

  /** The two allocations that leave a chunk dangling in ExpandingPool: here
      both chunks stay in owned buffers. */
  method RetainedAfterGrowth() returns (pool: Pool, first: Chunk, second: Chunk)
    ensures pool.Valid() && first in pool.outstanding && second in pool.outstanding
    ensures first != second && first.buf in pool.Repr && second.buf in pool.Repr
  {
    pool := new Pool(LinkSize, 1);
    first := pool.Allocate();
    second := pool.Allocate();
  }
}
