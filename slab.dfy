/** Buffers of the expanding pool and the chunks inside them. A chunk
    handle names its buffer and its position in it; a buffer is modelled by
    its link fields alone, buf[i] being what the first pointer-sized bytes
    of chunk i hold while that chunk is free. */
module Slab {
  import opened FreeList

  /** The chunk at position index of buffer buf. */
  datatype Chunk = Chunk(buf: array<Link>, index: nat)

  /** A link field: the null pointer or the next free chunk, which may lie
      in another buffer. */
  datatype Link = Null | Next(to: Chunk)

  /** Following the link values links from head, where links[i] is the
      link field of chunk xs[i], visits exactly xs, in order, and then
      reaches Null. */
  ghost predicate Linked(head: Link, xs: seq<Chunk>, links: seq<Link>)
    requires |links| == |xs|
    decreases |xs|
  {
    if |xs| == 0 then head == Null
    else head == Next(xs[0]) && Linked(links[0], xs[1..], links[1..])
  }

  /** Every chunk of xs is a real position of one of the buffers bufs. */
  ghost predicate InBuffers(bufs: set<array<Link>>, xs: seq<Chunk>) {
    forall i :: 0 <= i < |xs| ==> xs[i].buf in bufs && xs[i].index < xs[i].buf.Length
  }

  /** The link fields of the chunks xs, as they are now. */
  ghost function LinkFields(bufs: set<array<Link>>, xs: seq<Chunk>): (r: seq<Link>)
    requires InBuffers(bufs, xs)
    reads bufs
    ensures |r| == |xs|
    ensures forall i :: 0 <= i < |xs| ==> r[i] == xs[i].buf[xs[i].index]
    decreases |xs|
  {
    if |xs| == 0 then [] else [xs[0].buf[xs[0].index]] + LinkFields(bufs, xs[1..])
  }

  /** Following link fields from head visits exactly the chunks xs, in
      order, and then reaches Null; the chunks all lie in the buffers bufs. */
  ghost predicate IsChain(bufs: set<array<Link>>, head: Link, xs: seq<Chunk>)
    reads bufs
  {
    InBuffers(bufs, xs) && Linked(head, xs, LinkFields(bufs, xs))
  }

  /** Popping a chain: the rest of the chain starts at the head chunk's link
      field. */
  lemma ChainPop(bufs: set<array<Link>>, head: Link, xs: seq<Chunk>)
    requires IsChain(bufs, head, xs) && |xs| > 0
    ensures head == Next(xs[0]) && xs[0].buf in bufs && xs[0].index < xs[0].buf.Length
    ensures IsChain(bufs, xs[0].buf[xs[0].index], xs[1..])
  {
    assert LinkFields(bufs, xs[1..]) == LinkFields(bufs, xs)[1..];
  }

  /** Pushing onto a chain: a chunk whose link field holds the head becomes
      the new head. */
  lemma ChainPush(bufs: set<array<Link>>, head: Link, xs: seq<Chunk>, p: Chunk)
    requires IsChain(bufs, head, xs)
    requires p.buf in bufs && p.index < p.buf.Length && p.buf[p.index] == head
    ensures IsChain(bufs, Next(p), [p] + xs)
  {
    var ys := [p] + xs;
    assert ys[1..] == xs;
    assert LinkFields(bufs, ys)[1..] == LinkFields(bufs, xs);
  }

  /** A chain stays a chain when more buffers are counted as its own. */
  lemma ChainWiden(bufs: set<array<Link>>, more: set<array<Link>>, head: Link, xs: seq<Chunk>)
    requires IsChain(bufs, head, xs) && bufs <= more
    ensures IsChain(more, head, xs)
  {
    assert LinkFields(more, xs) == LinkFields(bufs, xs);
  }

  /** The chunks of buf as the linking loop leaves them on the free list:
      each of the chunks 0, 1, ..., n-1 in turn goes in front of those
      linked before it. Position i then holds chunk n-1-i, the same order
      the fixed pool's constructor builds. */
  function SlabChunks(buf: array<Link>, n: nat): (r: seq<Chunk>)
    ensures |r| == n
    ensures forall i :: 0 <= i < n ==> r[i] == Chunk(buf, n - 1 - i)
  {
    if n == 0 then [] else [Chunk(buf, n - 1)] + SlabChunks(buf, n - 1)
  }

  /** Those chunks are distinct chunks of buf. */
  lemma SlabChunksDistinct(buf: array<Link>, n: nat)
    ensures Distinct(SlabChunks(buf, n))
    ensures forall i :: 0 <= i < n ==> SlabChunks(buf, n)[i].buf == buf
  {
  }

  /** Those chunks are n distinct chunks of buf, covering every position. */
  lemma SlabChunksCover(buf: array<Link>, n: nat)
    ensures Distinct(SlabChunks(buf, n))
    ensures forall c :: c in SlabChunks(buf, n) <==> c.buf == buf && c.index < n
  {
    var r := SlabChunks(buf, n);
    forall c: Chunk | c.buf == buf && c.index < n ensures c in r {
      assert r[n - 1 - c.index] == c;
    }
  }

  /** After a growth, the poolSize allocations that follow with no
      deallocation in between hand out distinct chunks, all of the new
      buffer; the list is then empty again, so the next allocation grows. */
  lemma GrowthAllocations(buf: array<Link>, n: nat)
    ensures var (got, left) := PopMany(SlabChunks(buf, n), n);
      |got| == n && Distinct(got) && (forall c :: c in got ==> c.buf == buf && c.index < n) &&
      Pop(left) == Empty
  {
    SlabChunksCover(buf, n);
  }

  /** Acquires a new buffer of n chunks and links chunk 0, 1, ..., n-1 onto
      an empty list, each chunk's link field receiving the head so far.
      The buffer is never null: acquiring storage is taken to succeed. */
  method NewLinkedSlab(n: nat) returns (buf: array<Link>, head: Link)
    ensures fresh(buf) && buf.Length == n
    ensures IsChain({buf}, head, SlabChunks(buf, n)) && Distinct(SlabChunks(buf, n))
  {
    buf := new Link[n](_ => Null);
    head := Null;
    for i := 0 to n
      invariant IsChain({buf}, head, SlabChunks(buf, i))
    {
      ghost var linked := SlabChunks(buf, i);
      ghost var links := LinkFields({buf}, linked);
      buf[i] := head;
      assert LinkFields({buf}, linked) == links;
      ChainPush({buf}, head, linked, Chunk(buf, i));
      head := Next(Chunk(buf, i));
    }
    SlabChunksCover(buf, n);
  }
}
