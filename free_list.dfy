/** The abstract free list shared by both pools: the chunks reachable from
    the head, in list order. Allocation pops the head and deallocation
    pushes onto it, so reuse is last-in first-out. */
module FreeList {

  /** Bytes of the link field a free chunk stores (one pointer on a 64-bit
      target); every chunk must be at least this large. */
  const LinkSize: nat := 8

  /** Result of taking the head of a free list. */
  datatype PopResult<T> = Empty | Popped(chunk: T, rest: seq<T>)

  /** Taking the head of a free list: Empty exactly when the list is empty
      (the head pointer is null); otherwise the head and the chunks behind it. */
  function Pop<T>(xs: seq<T>): (r: PopResult<T>)
    ensures r.Empty? <==> |xs| == 0
    ensures r.Popped? ==> xs == [r.chunk] + r.rest
  {
    if |xs| == 0 then Empty else Popped(xs[0], xs[1..])
  }

  /** Putting a chunk back at the head; popping right afterwards gives back
      that chunk and the list as it was. */
  function Push<T>(xs: seq<T>, p: T): (r: seq<T>)
    ensures Pop(r) == Popped(p, xs)
  {
    [p] + xs
  }

  /** No chunk occurs twice in the list. */
  ghost predicate Distinct<T>(xs: seq<T>) {
    forall i, j :: 0 <= i < j < |xs| ==> xs[i] != xs[j]
  }

  /** Pushing onto a duplicate-free list keeps it duplicate-free exactly when
      the pushed chunk was not already free: a double free duplicates it. */
  lemma PushFresh<T>(xs: seq<T>, p: T)
    requires Distinct(xs)
    ensures Distinct(Push(xs, p)) <==> p !in xs
  {
    var r := Push(xs, p);
    assert r == [p] + xs;
    if p in xs {
      var k :| 0 <= k < |xs| && xs[k] == p;
      assert r[0] == r[k + 1];
    } else {
      forall i, j | 0 <= i < j < |r| ensures r[i] != r[j] {
        assert r[j] == xs[j - 1];
        if i > 0 {
          assert r[i] == xs[i - 1];
        }
      }
    }
  }

  /** Popping a duplicate-free list that shares no chunk with the handed-out
      set held: the rest is duplicate-free and shares no chunk with held
      once the popped chunk joins it. */
  lemma PopApart<T>(xs: seq<T>, held: set<T>)
    requires Distinct(xs) && |xs| > 0
    requires forall i :: 0 <= i < |xs| ==> xs[i] !in held
    ensures Distinct(xs[1..])
    ensures forall i :: 0 <= i < |xs| - 1 ==> xs[1..][i] !in held + {xs[0]}
  {
    forall i | 0 <= i < |xs| - 1 ensures xs[1..][i] !in held + {xs[0]} {
      assert xs[1..][i] == xs[i + 1];
    }
  }

  /** Pushing a handed-out chunk p onto a duplicate-free list that shares no
      chunk with the handed-out set held: the result is duplicate-free and
      shares no chunk with held once p leaves it. */
  lemma PushApart<T>(xs: seq<T>, held: set<T>, p: T)
    requires Distinct(xs) && p in held
    requires forall i :: 0 <= i < |xs| ==> xs[i] !in held
    ensures Distinct(Push(xs, p))
    ensures forall i :: 0 <= i < |xs| + 1 ==> Push(xs, p)[i] !in held - {p}
  {
    PushFresh(xs, p);
    forall i | 0 <= i < |xs| + 1 ensures Push(xs, p)[i] !in held - {p} {
      if i > 0 {
        assert Push(xs, p)[i] == xs[i - 1];
      }
    }
  }

  /** The list that linking chunks 0, 1, ..., n-1, in that order, onto an
      empty list leaves: chunk n-1 at the head and chunk 0 last. */
  function Descending(n: nat): (r: seq<nat>)
    ensures |r| == n
    ensures forall i :: 0 <= i < n ==> r[i] == n - 1 - i
  {
    if n == 0 then [] else [n - 1] + Descending(n - 1)
  }

  /** That list holds each of the n chunks exactly once and nothing else. */
  lemma DescendingCovers(n: nat)
    ensures Distinct(Descending(n))
    ensures forall c: nat :: c in Descending(n) <==> c < n
  {
    var r := Descending(n);
    forall c: nat | c < n ensures c in r {
      assert r[n - 1 - c] == c;
    }
  }

  /** k successive pops with no push in between: they hand out the first k
      chunks of the list, in list order, and leave the rest. */
  function PopMany<T>(xs: seq<T>, k: nat): (r: (seq<T>, seq<T>))
    requires k <= |xs|
    ensures r.0 == xs[..k] && r.1 == xs[k..]
    decreases k
  {
    if k == 0 then ([], xs)
    else
      var p := Pop(xs);
      var (got, left) := PopMany(p.rest, k - 1);
      assert xs[..k] == [p.chunk] + p.rest[..k - 1];
      ([p.chunk] + got, left)
  }
}
