/** Consequences of the heap invariant of contiki-ng/os/lib/heapmem.c. */
module HeapMemFacts {
  import opened HeapMem
  import opened HeapSweep

  /** `s` is the free list read from its head: consecutive elements are linked both ways. */
  ghost predicate Chain(m: seq<Cell>, s: seq<int>) {
    && (forall i :: 0 <= i < |s| ==> HeadAt(m, s[i]))
    && (forall i :: 0 <= i < |s| - 1 ==> m[s[i]].h.next == s[i + 1] && m[s[i + 1]].h.prev == s[i])
    && (s != [] ==> m[s[|s| - 1]].h.next == NULL)
  }

  ghost predicate Rising(rank: map<int, int>, s: seq<int>) {
    && (forall i :: 0 <= i < |s| ==> s[i] in rank)
    && (forall i, j :: 0 <= i < j < |s| ==> rank[s[i]] < rank[s[j]])
  }

  lemma {:induction false} ChainFrom(m: seq<Cell>, first: int, free: set<int>, rank: map<int, int>, x: int, rest: set<int>)
      returns (s: seq<int>)
    requires Linked(m, first, free, rank) && x in free && x in rank
    requires forall y :: y in free && y in rank && rank[x] < rank[y] ==> y in rest
    ensures s != [] && s[0] == x && Chain(m, s) && Rising(rank, s)
    ensures forall i :: 0 <= i < |s| ==> s[i] in free
    decreases |rest|
  {
    assert Node(m, first, free, rank, x);
    var n := m[x].h.next;
    if n == NULL {
      s := [x];
    } else {
      assert Node(m, first, free, rank, n);
      assert n in rest && |rest - {n}| < |rest|;
      var t := ChainFrom(m, first, free, rank, n, rest - {n});
      s := [x] + t;
      forall i, j | 0 <= i < j < |s| ensures rank[s[i]] < rank[s[j]] {
        assert s[j] == t[j - 1];
        if i == 0 && j > 1 { assert rank[t[0]] < rank[t[j - 1]]; }
      }
    }
  }

  lemma {:induction false} OnChain(m: seq<Cell>, first: int, free: set<int>, rank: map<int, int>, s: seq<int>, y: int)
    requires Linked(m, first, free, rank) && s != [] && s[0] == first && Chain(m, s) && y in free
    ensures y in s
    decreases if y in rank && first in rank then rank[y] - rank[first] else 0
  {
    assert Node(m, first, free, rank, y);
    if y != first {
      var p := m[y].h.prev;
      assert Node(m, first, free, rank, p) && Node(m, first, free, rank, first);
      OnChain(m, first, free, rank, s, p);
      var i :| 0 <= i < |s| && s[i] == p;
      assert i < |s| - 1 ==> s[i + 1] == y;
    }
  }

  /** The free list, read from its head, is a duplicate-free doubly linked list of exactly
      the free chunks, ended by NULL at both ends. */
  lemma FreeListIsSequence(m: seq<Cell>, first: int, free: set<int>, rank: map<int, int>) returns (s: seq<int>)
    requires Linked(m, first, free, rank)
    ensures first == (if s == [] then NULL else s[0])
    ensures Chain(m, s) && (s != [] ==> m[s[0]].h.prev == NULL)
    ensures forall i, j :: 0 <= i < j < |s| ==> s[i] != s[j]
    ensures forall x :: x in free <==> x in s
  {
    if first == NULL {
      s := [];
    } else {
      assert Node(m, first, free, rank, first);
      s := ChainFrom(m, first, free, rank, first, free);
      forall x ensures x in free <==> x in s {
        if x in free { OnChain(m, first, free, rank, s, x); }
      }
    }
  }

  /** Live objects are pairwise disjoint in memory and inside the arena. */
  lemma ObjectsDisjoint(hs: nat, m: seq<Cell>, usage: int, chunks: set<int>, o: int, p: int)
    requires Tiled(hs, m, usage, chunks) && o in Live(hs, m, chunks) && p in Live(hs, m, chunks) && o < p
    ensures 0 <= o + hs && o + hs + |Live(hs, m, chunks)[o]| <= p < p + hs + |Live(hs, m, chunks)[p]| <= |m|
  {}

  // ----- defragmentation -----

  /** Two tilings by the same chunks have the same sizes. */
  lemma SizesFromChunks(hs: nat, m: seq<Cell>, m': seq<Cell>, usage: int, chunks: set<int>, x: int)
    requires Tiled(hs, m, usage, chunks) && Tiled(hs, m', usage, chunks) && x in chunks
    ensures m[x].h.size == m'[x].h.size
  {
    assert End(hs, m, x) <= usage && End(hs, m', x) <= usage;
  }

  /** Two lists of the same elements in the same order have the same links. */
  lemma LinksFromOrder(m: seq<Cell>, first: int, m': seq<Cell>, first': int, free: set<int>, rank: map<int, int>, x: int)
    requires Linked(m, first, free, rank) && Linked(m', first', free, rank) && x in free
    ensures first == first' && m[x].h.next == m'[x].h.next
  {
    assert Node(m, first, free, rank, x) && Node(m', first', free, rank, x);
    assert Node(m, first, free, rank, first') && Node(m', first', free, rank, first);
    var n, n' := m[x].h.next, m'[x].h.next;
    if n != NULL { Successor(m', first', free, rank, x, n); }
    if n' != NULL { Successor(m, first, free, rank, x, n'); }
    if n != NULL && n' != NULL { Successor(m, first, free, rank, n, n'); }
  }

  lemma {:induction false} WalkFromOrder(m: seq<Cell>, first: int, m': seq<Cell>, first': int, free: set<int>, rank: map<int, int>, x: int, n: nat)
    requires Linked(m, first, free, rank) && Linked(m', first', free, rank) && (x == NULL || x in free)
    ensures Walk(m, x, n) == Walk(m', x, n)
    decreases n
  {
    if n > 0 && x != NULL {
      LinksFromOrder(m, first, m', first', free, rank, x);
      assert Node(m, first, free, rank, x);
      WalkFromOrder(m, first, m', first', free, rank, m[x].h.next, n - 1);
    }
  }

  /** What defrag_chunks makes of a heap is determined: the chunks, the free ones, their
      sizes and the order in which get_free_chunk searches them. */
  lemma DefragDetermined(hs: nat, a: nat, total: int, h: Arena, p: Arena, q: Arena)
    requires a > 0 && h in Arenas(hs, a, total) && p in Defragmentations(hs, a, total, h) && q in Defragmentations(hs, a, total, h)
    ensures p.usage == q.usage && p.chunks == q.chunks && p.free == q.free && p.rank == q.rank && p.first == q.first
    ensures forall x :: x in p.chunks ==> SizeAt(p.mem, x) == SizeAt(q.mem, x)
    ensures Walk(p.mem, p.first, CHUNK_SEARCH_MAX) == Walk(q.mem, q.first, CHUNK_SEARCH_MAX)
  {
    SameSurvivors(hs, h, p, q);
    forall x | x in p.chunks ensures SizeAt(p.mem, x) == SizeAt(q.mem, x) {
      SizesFromChunks(hs, p.mem, q.mem, p.usage, p.chunks, x);
    }
    if p.first != NULL {
      LinksFromOrder(p.mem, p.first, q.mem, q.first, p.free, p.rank, p.first);
    }
    WalkFromOrder(p.mem, p.first, q.mem, q.first, p.free, p.rank, p.first, CHUNK_SEARCH_MAX);
  }

  lemma SameSurvivors(hs: nat, h: Arena, p: Arena, q: Arena)
    requires Defrags(hs, h, p) && Defrags(hs, h, q)
    ensures p.usage == q.usage && p.chunks == q.chunks && p.free == q.free && p.rank == q.rank
  {
    var vs :| Visited(h, vs) && Coalesced(hs, h, p, vs);
    var ws :| Visited(h, ws) && Coalesced(hs, h, q, ws);
    VisitedUnique(h.chunks, h.free, h.rank, CHUNK_SEARCH_MAX, vs, ws);
    SurvivorsUnique(h.chunks, h.free, vs, p.chunks, q.chunks);
  }

  lemma {:induction false} WalkListed(m: seq<Cell>, first: int, free: set<int>, rank: map<int, int>, x: int, n: nat)
    requires Linked(m, first, free, rank) && (x == NULL || x in free)
    ensures forall i :: 0 <= i < |Walk(m, x, n)| ==> Walk(m, x, n)[i] in free
    decreases n
  {
    if n > 0 && x != NULL {
      assert Node(m, first, free, rank, x);
      WalkListed(m, first, free, rank, m[x].h.next, n - 1);
    }
  }

  /** The best fit is unique. */
  lemma BestUnique(m: seq<Cell>, m': seq<Cell>, w: seq<int>, size: nat, b: int, k: int, b': int, k': int)
    requires BestFit(m, w, |w|, size, b, k) && BestFit(m', w, |w|, size, b', k')
    requires forall i :: 0 <= i < |w| ==> SizeAt(m, w[i]) == SizeAt(m', w[i])
    ensures b == b'
  {}

  lemma SameBest(hs: nat, a: nat, total: int, p: Arena, q: Arena, size: nat, b: int, b': int)
    requires a > 0 && p in Arenas(hs, a, total) && BestOf(p, size, b) && BestOf(q, size, b')
    requires forall x :: x in p.chunks ==> SizeAt(p.mem, x) == SizeAt(q.mem, x)
    requires Walk(p.mem, p.first, CHUNK_SEARCH_MAX) == Walk(q.mem, q.first, CHUNK_SEARCH_MAX)
    ensures b == b'
  {
    WalkListed(p.mem, p.first, p.free, p.rank, p.first, CHUNK_SEARCH_MAX);
    var w := Walk(p.mem, p.first, CHUNK_SEARCH_MAX);
    var k :| BestFit(p.mem, w, |w|, size, b, k);
    var k' :| BestFit(q.mem, w, |w|, size, b', k');
    BestUnique(p.mem, q.mem, w, size, b, k, b', k');
  }

  /** So heapmem_alloc's choice is determined, and NULL is none where there is room. */
  lemma ChoiceDetermined(hs: nat, a: nat, total: int, h: Arena, size: nat, p: Arena, chunk: int, q: Arena, other: int)
    requires a > 0 && h in Arenas(hs, a, total)
    requires p in Choices(hs, a, total, h, size, chunk) && q in Choices(hs, a, total, h, size, other)
    ensures chunk == other
  {
    DefragDetermined(hs, a, total, h, p, q);
    var b := if BestOf(p, size, NULL) then NULL else chunk;
    var b' := if BestOf(q, size, NULL) then NULL else other;
    SameBest(hs, a, total, p, q, size, b, b');
    if BestOf(p, size, NULL) && BestOf(p, size, chunk) { SameBest(hs, a, total, p, p, size, NULL, chunk); }
    if BestOf(q, size, NULL) && BestOf(q, size, other) { SameBest(hs, a, total, q, q, size, NULL, other); }
  }

  /** A chunk is cut exactly when what is cut off holds a header and at least one byte. */
  lemma CutExactly(hs: nat, a: nat, n: int, offset: nat)
    requires a > 0 && offset <= n
    ensures var r := CutSize(hs, a, n, offset);
            && (r < n <==> n - Align(a, offset) - hs > 0) && (r < n ==> r == Align(a, offset)) && offset <= r <= n
  {}

  // ----- where the 32-bit arithmetic agrees with the model -----

  /** The number of values of a 32-bit size_t. */
  const WORD: int := 0x1_0000_0000

  /** A sum or difference less than one word off, as a size_t holds it. */
  function Wrap(x: int): int {
    if x >= WORD then x - WORD else if x < 0 then x + WORD else x
  }

  /** ALIGN for the default alignment of 4. */
  function AlignWrapped(size: nat): int { Wrap(size + 3) / 4 * 4 }

  /** ALIGN rounds up exactly when the size is at most SIZE_MAX - 3; above that it gives 0. */
  lemma AlignExactlyBelowWrap(size: nat)
    requires size < WORD
    ensures AlignWrapped(size) == Wrap(Align(4, size))
    ensures AlignWrapped(size) == Align(4, size) <==> size <= 0xFFFF_FFFC
  {
    var r := Align(4, size);
  }

  /** The guard of extend_space when heapmem_alloc asks for a header and the aligned size. */
  predicate Refuses(hs: nat, usage: int, size: nat, arena: int) {
    Wrap(usage + Wrap(hs + AlignWrapped(size))) > arena
  }

  /** It decides as the unbounded sum does exactly when that sum does not wrap, or wraps to
      something the arena cannot hold either.  Otherwise the request is granted although its
      object does not lie in the arena. */
  lemma GuardExactly(hs: nat, usage: int, size: nat, arena: int)
    requires 0 <= usage <= arena && arena + hs < WORD && size < WORD
    ensures var sum := usage + hs + Align(4, size);
            && ((Refuses(hs, usage, size, arena) <==> sum > arena) <==> sum < WORD || sum - WORD > arena)
            && (WORD <= sum <= WORD + arena ==> !Refuses(hs, usage, size, arena) && sum > arena)
  {
    AlignExactlyBelowWrap(size);
  }

  /** With 16-byte headers and an unused heap, a request for SIZE_MAX - 15 bytes asks
      extend_space for 0 bytes and is granted. */
  lemma GuardFails(size: nat, arena: int)
    requires size == 0xFFFF_FFF0 && 0 <= arena && arena + 16 < WORD
    ensures !Refuses(16, 0, size, arena) && 16 + Align(4, size) > arena
  {
    GuardExactly(16, 0, size, arena);
  }

  /** size_adj of heapmem_realloc: the difference of two size_t, taken as an int. */
  function SizeAdj(size: int, current: int): int {
    var d := Wrap(size - current);
    if d >= 0x8000_0000 then d - WORD else d
  }

  /** It tells shrinking from growing exactly when the difference is in the range of an int:
      growth by 2^31 or more takes the branch that shrinks. */
  lemma SizeAdjExactly(size: nat, current: nat)
    requires size < WORD && current < WORD
    ensures (SizeAdj(size, current) <= 0 <==> size <= current) <==> -0x8000_0000 <= size - current <= 0x7FFF_FFFF
  {}
}
