/** The addresses that contiki-ng/os/lib/heapmem.c hands out are determined by the history
    of the calls: chunks, sizes and the order of the free list are all that counts. */
module HeapHistory {
  import opened HeapMem
  import opened HeapSweep
  import opened HeapMemFacts

  /** Two rankings order the free chunks alike. */
  ghost predicate SameOrder(free: set<int>, r: map<int, int>, s: map<int, int>) {
    forall x, y :: x in free && y in free ==> (Place(r, x) < Place(r, y) <==> Place(s, x) < Place(s, y))
  }

  /** The same chunks, the same of them free, in the same order on the list. */
  ghost predicate SameShape(p: Arena, q: Arena) {
    p.usage == q.usage && p.chunks == q.chunks && p.free == q.free && SameOrder(p.free, p.rank, q.rank)
  }

  /** And of the same sizes. */
  ghost predicate SameLayout(p: Arena, q: Arena) {
    SameShape(p, q) && forall x :: x in p.chunks ==> SizeAt(p.mem, x) == SizeAt(q.mem, x)
  }

  /** Sizes follow from the chunks. */
  lemma ShapeIsLayout(hs: nat, a: nat, total: int, p: Arena, q: Arena)
    requires a > 0 && p in Arenas(hs, a, total) && q in Arenas(hs, a, total) && SameShape(p, q)
    ensures SameLayout(p, q)
  {
    forall x | x in p.chunks ensures SizeAt(p.mem, x) == SizeAt(q.mem, x) {
      SizesFromChunks(hs, p.mem, q.mem, p.usage, p.chunks, x);
    }
  }

  // ----- the list -----

  lemma FirstIsLowest(m: seq<Cell>, first: int, free: set<int>, rank: map<int, int>, x: int)
    requires Linked(m, first, free, rank) && x in free
    ensures first in free && (x == first || Place(rank, first) < Place(rank, x))
  {
    assert Node(m, first, free, rank, x) && Node(m, first, free, rank, first);
  }

  lemma SameFirst(p: Arena, q: Arena)
    requires Linked(p.mem, p.first, p.free, p.rank) && Linked(q.mem, q.first, q.free, q.rank) && SameShape(p, q)
    ensures p.first == q.first
  {
    if p.first != NULL {
      FirstIsLowest(q.mem, q.first, q.free, q.rank, p.first);
      FirstIsLowest(p.mem, p.first, p.free, p.rank, q.first);
    }
  }

  lemma NextIsNext(m: seq<Cell>, first: int, free: set<int>, rank: map<int, int>, x: int, y: int)
    requires Linked(m, first, free, rank) && x in free && y in free && Place(rank, x) < Place(rank, y)
    ensures HeadAt(m, x) && m[x].h.next in free && Place(rank, x) < Place(rank, m[x].h.next) <= Place(rank, y)
  {
    assert Node(m, first, free, rank, x) && Node(m, first, free, rank, y);
    Successor(m, first, free, rank, x, y);
  }

  lemma SamePlace(m: seq<Cell>, first: int, free: set<int>, rank: map<int, int>, x: int, y: int)
    requires Linked(m, first, free, rank) && x in free && y in free && Place(rank, x) == Place(rank, y)
    ensures x == y
  {
    assert Node(m, first, free, rank, x) && Node(m, first, free, rank, y);
    Successor(m, first, free, rank, x, y);
  }

  lemma SameNext(p: Arena, q: Arena, x: int)
    requires Linked(p.mem, p.first, p.free, p.rank) && Linked(q.mem, q.first, q.free, q.rank) && SameShape(p, q) && x in p.free
    ensures HeadAt(p.mem, x) && HeadAt(q.mem, x) && p.mem[x].h.next == q.mem[x].h.next
  {
    assert Node(p.mem, p.first, p.free, p.rank, x) && Node(q.mem, q.first, q.free, q.rank, x);
    var n, k := p.mem[x].h.next, q.mem[x].h.next;
    if n != NULL { NextIsNext(q.mem, q.first, q.free, q.rank, x, n); }
    if k != NULL { NextIsNext(p.mem, p.first, p.free, p.rank, x, k); }
    if n != NULL && k != NULL {
      assert Place(p.rank, n) <= Place(p.rank, k) && Place(q.rank, k) <= Place(q.rank, n);
      SamePlace(p.mem, p.first, p.free, p.rank, n, k);
    }
  }

  /** The lists read from their heads are the same. */
  lemma {:induction false} SameWalk(p: Arena, q: Arena, x: int, n: nat)
    requires Linked(p.mem, p.first, p.free, p.rank) && Linked(q.mem, q.first, q.free, q.rank) && SameShape(p, q)
    requires x == NULL || x in p.free
    ensures Walk(p.mem, x, n) == Walk(q.mem, x, n)
    decreases n
  {
    if n > 0 && x != NULL {
      SameNext(p, q, x);
      assert Node(p.mem, p.first, p.free, p.rank, x);
      SameWalk(p, q, p.mem[x].h.next, n - 1);
    }
  }

  // ----- one request -----

  lemma SameVisits(chunks: set<int>, free: set<int>, r: map<int, int>, s: map<int, int>, max: nat, vs: set<int>)
    requires SameOrder(free, r, s) && Visits(chunks, free, r, max, vs)
    ensures Visits(chunks, free, s, max, vs)
  {
    forall x | x in free ensures Earlier(chunks, free, r, vs, x) <==> Earlier(chunks, free, s, vs, x) {}
  }

  lemma SameDefragmentation(hs: nat, a: nat, total: int, p: Arena, q: Arena, p': Arena, q': Arena)
    requires a > 0 && SameShape(p, q) && p' in Defragmentations(hs, a, total, p) && q' in Defragmentations(hs, a, total, q)
    ensures SameLayout(p', q')
  {
    var vs :| Visited(p, vs) && Coalesced(hs, p, p', vs);
    var ws :| Visited(q, ws) && Coalesced(hs, q, q', ws);
    SameVisits(p.chunks, p.free, p.rank, q.rank, CHUNK_SEARCH_MAX, vs);
    VisitedUnique(q.chunks, q.free, q.rank, CHUNK_SEARCH_MAX, vs, ws);
    SameCoalesced(hs, p, q, p', q', vs);
    ShapeIsLayout(hs, a, total, p', q');
  }

  lemma SameCoalesced(hs: nat, p: Arena, q: Arena, p': Arena, q': Arena, vs: set<int>)
    requires SameShape(p, q) && Coalesced(hs, p, p', vs) && Coalesced(hs, q, q', vs)
    ensures SameShape(p', q')
  {
    SurvivorsUnique(p.chunks, p.free, vs, p'.chunks, q'.chunks);
  }

  lemma SameChoice(hs: nat, a: nat, total: int, p: Arena, q: Arena, p': Arena, q': Arena, size: nat, c: int, d: int)
    requires a > 0 && SameShape(p, q) && p' in Choices(hs, a, total, p, size, c) && q' in Choices(hs, a, total, q, size, d)
    ensures c == d && SameLayout(p', q')
  {
    SameDefragmentation(hs, a, total, p, q, p', q');
    SameFirst(p', q');
    SameWalk(p', q', p'.first, CHUNK_SEARCH_MAX);
    SameChosen(hs, a, total, p', q', size, c, d);
  }

  lemma SameChosen(hs: nat, a: nat, total: int, p: Arena, q: Arena, size: nat, c: int, d: int)
    requires a > 0 && SameLayout(p, q) && p in Arenas(hs, a, total) && q in Arenas(hs, a, total)
    requires Walk(p.mem, p.first, CHUNK_SEARCH_MAX) == Walk(q.mem, q.first, CHUNK_SEARCH_MAX)
    requires Chosen(hs, total, p, size, c) && Chosen(hs, total, q, size, d)
    ensures c == d
  {
    var b := if BestOf(p, size, NULL) then NULL else c;
    var b' := if BestOf(q, size, NULL) then NULL else d;
    SameBest(hs, a, total, p, q, size, b, b');
    if BestOf(p, size, NULL) && BestOf(p, size, c) { SameBest(hs, a, total, p, p, size, NULL, c); }
    if BestOf(q, size, NULL) && BestOf(q, size, d) { SameBest(hs, a, total, q, q, size, NULL, d); }
  }

  /** Chunk o becomes the first of the list in both. */
  lemma SameFronted(p: Arena, q: Arena, o: int, last: bool, p': Arena, q': Arena)
    requires SameShape(p, q) && Linked(p'.mem, p'.first, p'.free, p'.rank) && Linked(q'.mem, q'.first, q'.free, q'.rank)
    requires Fronted(p.free, p.first, p.rank, o, last, p'.first, p'.rank) && Fronted(q.free, q.first, q.rank, o, last, q'.first, q'.rank)
    requires p'.free == q'.free == if last then p.free else p.free + {o}
    ensures SameOrder(p'.free, p'.rank, q'.rank)
  {
    if !last {
      forall x, y | x in p'.free && y in p'.free
        ensures Place(p'.rank, x) < Place(p'.rank, y) <==> Place(q'.rank, x) < Place(q'.rank, y)
      {
        FirstIsLowest(p'.mem, p'.first, p'.free, p'.rank, x);
        FirstIsLowest(p'.mem, p'.first, p'.free, p'.rank, y);
        FirstIsLowest(q'.mem, q'.first, q'.free, q'.rank, x);
        FirstIsLowest(q'.mem, q'.first, q'.free, q'.rank, y);
      }
    }
  }

  lemma SameRelease(hs: nat, a: nat, total: int, p: Arena, q: Arena, o: int, p': Arena, q': Arena)
    requires a > 0 && p' in Arenas(hs, a, total) && q' in Arenas(hs, a, total)
    requires SameLayout(p, q) && p' in Releases(hs, p, o) && q' in Releases(hs, q, o)
    ensures SameLayout(p', q')
  {
    assert SizeAt(p.mem, o) == SizeAt(q.mem, o);
    SameFronted(p, q, o, End(hs, p.mem, o) == p.usage, p', q');
  }

  lemma SameSplit(hs: nat, a: nat, total: int, p: Arena, q: Arena, o: int, size: int, p': Arena, q': Arena)
    requires a > 0 && p' in Arenas(hs, a, total) && q' in Arenas(hs, a, total)
    requires SameLayout(p, q) && p' in Splits(hs, p, o, size) && q' in Splits(hs, q, o, size)
    ensures SameLayout(p', q')
  {
    assert SizeAt(p.mem, o) == SizeAt(q.mem, o);
    if size != p.mem[o].h.size {
      SameFronted(p, q, End(hs, p'.mem, o), End(hs, p.mem, o) == p.usage, p', q');
      ShapeIsLayout(hs, a, total, p', q');
    }
  }

  lemma SameTaking(hs: nat, a: nat, total: int, p: Arena, q: Arena, o: int, size: nat, p': Arena, q': Arena)
    requires a > 0 && p' in Arenas(hs, a, total) && q' in Arenas(hs, a, total) && SameLayout(p, q) && o in p.chunks
    requires p' in Takings(hs, a, total, p, o, size) && q' in Takings(hs, a, total, q, o, size)
    ensures SameLayout(p', q')
  {
    var n := CutSize(hs, a, SizeAt(p.mem, o), size);
    var p1 :| p1 in Unlistings(p, o) && p1 in Arenas(hs, a, total) && p' in Splits(hs, p1, o, n);
    var q1 :| q1 in Unlistings(q, o) && q1 in Arenas(hs, a, total) && q' in Splits(hs, q1, o, n);
    SameUnlisted(p, q, o, p1, q1);
    SameSplit(hs, a, total, p1, q1, o, n, p', q');
  }

  lemma SameUnlisted(p: Arena, q: Arena, o: int, p': Arena, q': Arena)
    requires SameLayout(p, q) && p' in Unlistings(p, o) && q' in Unlistings(q, o)
    ensures SameLayout(p', q')
  {}

  lemma SameExtension(hs: nat, p: Arena, q: Arena, size: nat, p': Arena, q': Arena)
    requires SameLayout(p, q) && p' in Extensions(hs, p, size) && q' in Extensions(hs, q, size)
    ensures SameLayout(p', q')
  {}

  lemma SameAllotment(hs: nat, a: nat, total: int, p: Arena, q: Arena, size: nat, c: int, p': Arena, q': Arena)
    requires a > 0 && SameLayout(p, q) && p.free <= p.chunks && p' in Arenas(hs, a, total) && q' in Arenas(hs, a, total)
    requires p' in Allotments(hs, a, total, p, size, c) && q' in Allotments(hs, a, total, q, size, c)
    ensures SameLayout(p', q')
  {
    if c != NULL && c in p.free {
      SameTaking(hs, a, total, p, q, c, size, p', q');
    } else if c != NULL {
      SameExtension(hs, p, q, size, p', q');
    }
  }

  lemma SameAllocation(hs: nat, a: nat, total: int, p: Arena, q: Arena, size: nat, r: int, s: int, p': Arena, q': Arena)
    requires a > 0 && SameShape(p, q) && p' in Arenas(hs, a, total) && q' in Arenas(hs, a, total)
    requires ServesAllocation(hs, a, total, p, size, r, p') && ServesAllocation(hs, a, total, q, size, s, q')
    ensures r == s && SameLayout(p', q')
  {
    assert AllocationServes(hs, a, total, p, size, r, p') && AllocationServes(hs, a, total, q, size, s, q');
    var n := Align(a, size);
    var p1 :| AllocatedVia(hs, a, total, p, p1, n, ChunkOf(hs, r), p');
    var q1 :| AllocatedVia(hs, a, total, q, q1, n, ChunkOf(hs, s), q');
    SameAllocatedVia(hs, a, total, p, q, p1, q1, n, ChunkOf(hs, r), ChunkOf(hs, s), p', q');
  }

  lemma SameAllocatedVia(hs: nat, a: nat, total: int, p: Arena, q: Arena, p1: Arena, q1: Arena, size: nat, c: int, d: int, p': Arena, q': Arena)
    requires a > 0 && SameShape(p, q) && p' in Arenas(hs, a, total) && q' in Arenas(hs, a, total)
    requires AllocatedVia(hs, a, total, p, p1, size, c, p') && AllocatedVia(hs, a, total, q, q1, size, d, q')
    ensures c == d && SameLayout(p', q')
  {
    SameChoice(hs, a, total, p, q, p1, q1, size, c, d);
    SameAllotment(hs, a, total, p1, q1, size, c, p', q');
  }

  lemma SameAttempt(hs: nat, p: Arena, q: Arena, o: int, p': Arena, q': Arena)
    requires SameLayout(p, q) && o in p.chunks && Attempted(hs, p, p', o) && Attempted(hs, q, q', o)
    ensures SameShape(p', q')
  {
    assert SizeAt(p.mem, o) == SizeAt(q.mem, o);
    if End(hs, p.mem, o) != p.usage { SameCoalesced(hs, p, q, p', q', {o}); }
  }

  lemma SameRewrite(p: Arena, q: Arena, p': Arena, q': Arena)
    requires SameLayout(p, q) && p' in Rewrites(p) && q' in Rewrites(q)
    ensures SameLayout(p', q')
  {}

  lemma SameGrowable(hs: nat, total: int, p: Arena, q: Arena, o: int, size: nat)
    requires SameLayout(p, q) && o in p.chunks && HeadAt(p.mem, o) && HeadAt(q.mem, o)
    ensures Growable(hs, total, p, o, size) <==> Growable(hs, total, q, o, size)
    ensures End(hs, p.mem, o) == End(hs, q.mem, o)
  {
    assert SizeAt(p.mem, o) == SizeAt(q.mem, o);
  }

  lemma SameExpansion(hs: nat, a: nat, total: int, p: Arena, q: Arena, o: int, size: nat, p': Arena, q': Arena)
    requires a > 0 && SameLayout(p, q) && p' in Arenas(hs, a, total) && q' in Arenas(hs, a, total)
    requires IsExpanded(hs, a, total, p, o, size, p') && IsExpanded(hs, a, total, q, o, size, q')
    ensures SameLayout(p', q')
  {
    var p1 :| p1 in Behind(hs, a, total, p, o) && p' in Splits(hs, p1, o, CutSize(hs, a, SizeAt(p1.mem, o), size));
    var q1 :| q1 in Behind(hs, a, total, q, o) && q' in Splits(hs, q1, o, CutSize(hs, a, SizeAt(q1.mem, o), size));
    SameCoalesced(hs, p, q, p1, q1, {o});
    ShapeIsLayout(hs, a, total, p1, q1);
    SameSplit(hs, a, total, p1, q1, o, CutSize(hs, a, SizeAt(p1.mem, o), size), p', q');
  }

  lemma SameGrowth(hs: nat, a: nat, total: int, p: Arena, q: Arena, o: int, size: nat, p': Arena, q': Arena)
    requires a > 0 && SameLayout(p, q) && o in p.chunks && HeadAt(p.mem, o) && HeadAt(q.mem, o)
    requires p' in Arenas(hs, a, total) && q' in Arenas(hs, a, total)
    requires p' in Growths(hs, a, total, p, o, size) && q' in Growths(hs, a, total, q, o, size)
    ensures SameLayout(p', q')
  {
    SameGrowable(hs, total, p, q, o, size);
    if End(hs, p.mem, o) == p.usage {
      ShapeIsLayout(hs, a, total, p', q');
    } else {
      SameExpansion(hs, a, total, p, q, o, size, p', q');
    }
  }

  lemma SameMove(hs: nat, a: nat, total: int, p: Arena, q: Arena, o: int, size: nat, c: int, p': Arena, q': Arena)
    requires a > 0 && SameLayout(p, q) && p.free <= p.chunks && p' in Arenas(hs, a, total) && q' in Arenas(hs, a, total)
    requires p' in Relocations(hs, a, total, p, o, size, c) && q' in Relocations(hs, a, total, q, o, size, c)
    ensures SameLayout(p', q')
  {
    if c != NULL {
      var p1, p2 :| p1 in Allotments(hs, a, total, p, size, c) && p1 in Arenas(hs, a, total)
                    && p2 in Rewrites(p1) && p2 in Arenas(hs, a, total) && p' in Releases(hs, p2, o);
      var q1, q2 :| q1 in Allotments(hs, a, total, q, size, c) && q1 in Arenas(hs, a, total)
                    && q2 in Rewrites(q1) && q2 in Arenas(hs, a, total) && q' in Releases(hs, q2, o);
      SameAllotment(hs, a, total, p, q, size, c, p1, q1);
      SameCopyFree(hs, a, total, p1, q1, o, p2, q2, p', q');
    }
  }

  /** The copy and the release at the end of a move. */
  lemma SameCopyFree(hs: nat, a: nat, total: int, p: Arena, q: Arena, o: int, p1: Arena, q1: Arena, p': Arena, q': Arena)
    requires a > 0 && SameLayout(p, q) && p1 in Rewrites(p) && q1 in Rewrites(q)
    requires p' in Releases(hs, p1, o) && q' in Releases(hs, q1, o)
    requires p' in Arenas(hs, a, total) && q' in Arenas(hs, a, total)
    ensures SameLayout(p', q')
  {
    SameRewrite(p, q, p1, q1);
    SameRelease(hs, a, total, p1, q1, o, p', q');
  }

  lemma SameRelocation(hs: nat, a: nat, total: int, p: Arena, q: Arena, o: int, size: nat, r: int, s: int,
                       p1: Arena, q1: Arena, p': Arena, q': Arena)
    requires a > 0 && SameLayout(p, q) && o in p.chunks && p' in Arenas(hs, a, total) && q' in Arenas(hs, a, total)
    requires IsPointer(hs, r) && IsPointer(hs, s)
    requires Relocated(hs, a, total, p, o, size, r, p1) && Relocated(hs, a, total, q, o, size, s, q1)
    requires p' in Relocations(hs, a, total, p1, o, Align(a, size), ChunkOf(hs, r))
    requires q' in Relocations(hs, a, total, q1, o, Align(a, size), ChunkOf(hs, s))
    ensures r == s && SameLayout(p', q')
  {
    var n := Align(a, size);
    var pm :| Attempted(hs, p, pm, o) && p1 in Choices(hs, a, total, pm, n, ChunkOf(hs, r));
    var qm :| Attempted(hs, q, qm, o) && q1 in Choices(hs, a, total, qm, n, ChunkOf(hs, s));
    SameAttempt(hs, p, q, o, pm, qm);
    SameChoice(hs, a, total, pm, qm, p1, q1, n, ChunkOf(hs, r), ChunkOf(hs, s));
    SameMove(hs, a, total, p1, q1, o, n, ChunkOf(hs, r), p', q');
  }

  lemma SameResize(hs: nat, a: nat, total: int, p: Arena, q: Arena, o: int, size: nat, r: int, s: int, p': Arena, q': Arena)
    requires a > 0 && SameLayout(p, q) && p' in Arenas(hs, a, total) && q' in Arenas(hs, a, total)
    requires ServesResize(hs, a, total, p, o, size, r, p') && ServesResize(hs, a, total, q, o, size, s, q')
    ensures r == s && SameLayout(p', q')
  {
    assert ResizeServes(hs, a, total, p, o, size, r, p') && ResizeServes(hs, a, total, q, o, size, s, q');
    var n, k := SizeAt(p.mem, o), Align(a, size);
    assert n == SizeAt(q.mem, o);
    var p1 :| ResizedVia(hs, a, total, p, o, n, k, r, p1, p');
    var q1 :| ResizedVia(hs, a, total, q, o, n, k, s, q1, q');
    SameResizing(hs, a, total, p, q, o, n, k, r, s, p1, q1, p', q');
  }

  lemma SameResizing(hs: nat, a: nat, total: int, p: Arena, q: Arena, o: int, n: nat, k: nat, r: int, s: int,
                     p1: Arena, q1: Arena, p': Arena, q': Arena)
    requires a > 0 && SameLayout(p, q) && p' in Arenas(hs, a, total) && q' in Arenas(hs, a, total) && IsPointer(hs, r) && IsPointer(hs, s)
    requires LiveAt(p.mem, p.chunks, o) && LiveAt(q.mem, q.chunks, o)
    requires Placed(hs, a, total, p, o, n, k, r, p1) && p' in Resizings(hs, a, total, p, o, n, k, r, p1)
    requires Placed(hs, a, total, q, o, n, k, s, q1) && q' in Resizings(hs, a, total, q, o, n, k, s, q1)
    ensures r == s && SameLayout(p', q')
  {
    SameGrowable(hs, total, p, q, o, k);
    if k <= n {
      SameSplit(hs, a, total, p, q, o, CutSize(hs, a, n, k), p', q');
    } else if Growable(hs, total, p, o, k) {
      SameGrowth(hs, a, total, p, q, o, k, p', q');
    } else {
      SameRelocation(hs, a, total, p, q, o, k, r, s, p1, q1, p', q');
    }
  }

  lemma SameRealloc(hs: nat, a: nat, total: int, p: Arena, q: Arena, ptr: int, size: nat, x: int, y: int, p': Arena, q': Arena)
    requires a > 0 && SameLayout(p, q) && p' in Arenas(hs, a, total) && q' in Arenas(hs, a, total)
    requires ServesRealloc(hs, a, total, p, ptr, size, x, p') && ServesRealloc(hs, a, total, q, ptr, size, y, q')
    ensures x == y && SameLayout(p', q')
  {
    assert ReallocServes(hs, a, total, p, ptr, size, x, p') && ReallocServes(hs, a, total, q, ptr, size, y, q');
    if ptr == NULL {
      SameAllocation(hs, a, total, p, q, size, x, y, p', q');
    } else if size == 0 {
      SameRelease(hs, a, total, p, q, ptr - hs, p', q');
    } else {
      SameResize(hs, a, total, p, q, ptr - hs, size, x, y, p', q');
    }
  }

  /** The answer to a request and the layout it leaves depend on the layout alone. */
  lemma SameOutcome(hs: nat, a: nat, total: int, p: Arena, q: Arena, r: Request, x: int, y: int, p': Arena, q': Arena)
    requires a > 0 && SameLayout(p, q) && p' in Outcomes(hs, a, total, p, r, x) && q' in Outcomes(hs, a, total, q, r, y)
    ensures x == y && SameLayout(p', q')
  {
    match r
    case AllocRequest(size) => SameAllocation(hs, a, total, p, q, size, x, y, p', q');
    case FreeRequest(ptr) => if ptr != NULL { SameRelease(hs, a, total, p, q, ptr - hs, p', q'); }
    case ReallocRequest(ptr, size) => SameRealloc(hs, a, total, p, q, ptr, size, x, y, p', q');
    case Write => SameRewrite(p, q, p', q');
    case Report =>
      SameCoalesced(hs, p, q, p', q', p.free);
      ShapeIsLayout(hs, a, total, p', q');
  }

  // ----- histories -----

  /** SameLayout and a served request, kept folded in the induction over histories. */
  ghost predicate Alike(p: Arena, q: Arena) {
    forall k :: k == q ==> SameLayout(p, k)
  }

  ghost predicate Answers(hs: nat, a: nat, total: int, h: Arena, r: Request, x: int, h': Arena)
    requires a > 0
  {
    forall k :: k == h' ==> k in Outcomes(hs, a, total, h, r, x)
  }

  lemma SameAnswer(hs: nat, a: nat, total: int, p: Arena, q: Arena, r: Request, x: int, y: int, p': Arena, q': Arena)
    requires a > 0 && Alike(p, q) && Answers(hs, a, total, p, r, x, p') && Answers(hs, a, total, q, r, y, q')
    ensures x == y && Alike(p', q')
  {
    assert SameLayout(p, q) && p' in Outcomes(hs, a, total, p, r, x) && q' in Outcomes(hs, a, total, q, r, y);
    SameOutcome(hs, a, total, p, q, r, x, y, p', q');
  }

  /** From h the requests are served one after the other with these answers, up to h'. */
  ghost predicate Play(hs: nat, a: nat, total: int, h: Arena, rs: seq<Request>, answers: seq<int>, h': Arena)
    requires a > 0
    decreases |rs|
  {
    if rs == [] then answers == [] && h' == h
    else |answers| == |rs| && exists h1 :: Answers(hs, a, total, h, rs[0], answers[0], h1) && Play(hs, a, total, h1, rs[1..], answers[1..], h')
  }

  lemma {:induction false} SamePlay(hs: nat, a: nat, total: int, p: Arena, q: Arena, rs: seq<Request>,
                                    xs: seq<int>, ys: seq<int>, p': Arena, q': Arena)
    requires a > 0 && Alike(p, q) && Play(hs, a, total, p, rs, xs, p') && Play(hs, a, total, q, rs, ys, q')
    ensures xs == ys && Alike(p', q')
    decreases |rs|
  {
    if rs != [] {
      var p1 :| Answers(hs, a, total, p, rs[0], xs[0], p1) && Play(hs, a, total, p1, rs[1..], xs[1..], p');
      var q1 :| Answers(hs, a, total, q, rs[0], ys[0], q1) && Play(hs, a, total, q1, rs[1..], ys[1..], q');
      SameAnswer(hs, a, total, p, q, rs[0], xs[0], ys[0], p1, q1);
      SamePlay(hs, a, total, p1, q1, rs[1..], xs[1..], ys[1..], p', q');
      assert xs == [xs[0]] + xs[1..] && ys == [ys[0]] + ys[1..];
    }
  }

  /** The same history of requests gives the same addresses, and the same failures, whatever
      the clients wrote into their objects. */
  lemma AddressesDetermined(hs: nat, a: nat, total: int, p: Arena, q: Arena, rs: seq<Request>,
                            xs: seq<int>, ys: seq<int>, p': Arena, q': Arena)
    requires a > 0 && SameLayout(p, q) && Play(hs, a, total, p, rs, xs, p') && Play(hs, a, total, q, rs, ys, q')
    ensures xs == ys && SameLayout(p', q')
  {
    SamePlay(hs, a, total, p, q, rs, xs, ys, p', q');
    assert SameLayout(p', q') <== Alike(p', q');
  }

  // ----- the list, read from its head -----

  /** The free list. */
  ghost function List(h: Arena): seq<int> { Walk(h.mem, h.first, |h.free|) }

  lemma {:induction false} WalkOfChain(m: seq<Cell>, s: seq<int>)
    requires Chain(m, s)
    ensures Walk(m, if s == [] then NULL else s[0], |s|) == s
    decreases |s|
  {
    if s != [] {
      assert Chain(m, s[1..]) by { forall i | 0 <= i < |s| - 2 ensures m[s[1..][i]].h.next == s[1..][i + 1] {} }
      WalkOfChain(m, s[1..]);
      if |s| == 1 { assert Walk(m, NULL, 0) == []; } else { assert m[s[0]].h.next == s[1]; }
      assert s == [s[0]] + s[1..];
    }
  }

  lemma {:induction false} DistinctCount(s: seq<int>, free: set<int>)
    requires (forall i, j :: 0 <= i < j < |s| ==> s[i] != s[j]) && forall x :: x in free <==> x in s
    ensures |s| == |free|
    decreases |s|
  {
    if s == [] {
      forall x ensures x !in free { assert x in free <==> x in s; }
      assert free == {};
    } else {
      forall x ensures x in free - {s[0]} <==> x in s[1..] {
        if x in s { var i :| 0 <= i < |s| && s[i] == x; if i > 0 { assert s[1..][i - 1] == x; } }
      }
      DistinctCount(s[1..], free - {s[0]});
    }
  }

  /** It holds exactly the free chunks, each once, in the order of the ranks. */
  lemma ListIsList(h: Arena)
    requires Linked(h.mem, h.first, h.free, h.rank)
    ensures (forall x :: x in h.free <==> x in List(h)) && |List(h)| == |h.free|
    ensures forall i, j :: 0 <= i < j < |List(h)| ==> Place(h.rank, List(h)[i]) < Place(h.rank, List(h)[j])
  {
    var s := FreeListIsSequence(h.mem, h.first, h.free, h.rank);
    DistinctCount(s, h.free);
    WalkOfChain(h.mem, s);
    assert List(h) == s;
    RisingChain(h.mem, h.first, h.free, h.rank, s);
  }

  lemma RisingChain(m: seq<Cell>, first: int, free: set<int>, rank: map<int, int>, s: seq<int>)
    requires Linked(m, first, free, rank) && Chain(m, s) && forall x :: x in s ==> x in free
    ensures forall i, j :: 0 <= i < j < |s| ==> Place(rank, s[i]) < Place(rank, s[j])
  {
    forall i, j | 0 <= i < j < |s| ensures Place(rank, s[i]) < Place(rank, s[j]) { RisingPair(m, first, free, rank, s, i, j); }
  }

  lemma {:induction false} RisingPair(m: seq<Cell>, first: int, free: set<int>, rank: map<int, int>, s: seq<int>, i: nat, j: nat)
    requires Linked(m, first, free, rank) && Chain(m, s) && (forall x :: x in s ==> x in free) && i < j < |s|
    ensures Place(rank, s[i]) < Place(rank, s[j])
    decreases j
  {
    if i + 1 < j { RisingPair(m, first, free, rank, s, i, j - 1); }
    assert Node(m, first, free, rank, s[j - 1]);
  }

  /** Only one sequence has these elements in this order. */
  lemma {:induction false} RisingUnique(rank: map<int, int>, s: seq<int>, t: seq<int>)
    requires forall i, j :: 0 <= i < j < |s| ==> Place(rank, s[i]) < Place(rank, s[j])
    requires forall i, j :: 0 <= i < j < |t| ==> Place(rank, t[i]) < Place(rank, t[j])
    requires forall x :: x in s <==> x in t
    ensures s == t
    decreases |s|
  {
    if s == [] {
      if t != [] { HasFirst(t); }
    } else {
      assert s[0] in s && s[0] in t;
      var k :| 0 <= k < |t| && t[k] == s[0];
      assert t[0] in t && t[0] in s;
      var l :| 0 <= l < |s| && s[l] == t[0];
      assert k == 0 && l == 0;
      forall x ensures x in s[1..] <==> x in t[1..] {
        RestHas(rank, s, x);
        RestHas(rank, t, x);
      }
      RisingUnique(rank, s[1..], t[1..]);
    }
  }

  lemma HasFirst(t: seq<int>)
    requires t != []
    ensures t[0] in t
  {}

  lemma RestHas(rank: map<int, int>, s: seq<int>, x: int)
    requires s != [] && forall i, j :: 0 <= i < j < |s| ==> Place(rank, s[i]) < Place(rank, s[j])
    ensures x in s[1..] <==> x in s && x != s[0]
  {
    if x in s && x != s[0] {
      var i :| 0 <= i < |s| && s[i] == x;
      assert s[1..][i - 1] == x;
    }
  }

  /** Freeing a chunk that is not the last one puts it at the head of the list, in front of
      the list as it was; freeing the last one leaves the list as it was. */
  lemma ListAfterRelease(hs: nat, a: nat, total: int, h: Arena, o: int, h': Arena)
    requires a > 0 && h in Arenas(hs, a, total) && h' in Arenas(hs, a, total) && h' in Releases(hs, h, o) && o !in h.free
    ensures HeadAt(h.mem, o) && List(h') == if End(hs, h.mem, o) == h.usage then List(h) else [o] + List(h)
  {
    ListPushed(h, o, End(hs, h.mem, o) == h.usage, h');
  }

  /** So does the rest of a chunk that is split. */
  lemma ListAfterSplit(hs: nat, a: nat, total: int, h: Arena, o: int, size: int, h': Arena)
    requires a > 0 && h in Arenas(hs, a, total) && h' in Arenas(hs, a, total) && h' in Splits(hs, h, o, size)
    ensures HeadAt(h.mem, o) && HeadAt(h'.mem, o)
    ensures List(h') == if size == h.mem[o].h.size || End(hs, h.mem, o) == h.usage then List(h) else [End(hs, h'.mem, o)] + List(h)
  {
    if size != h.mem[o].h.size { ListPushed(h, End(hs, h'.mem, o), End(hs, h.mem, o) == h.usage, h'); }
  }

  lemma ListPushed(h: Arena, o: int, last: bool, h': Arena)
    requires Linked(h.mem, h.first, h.free, h.rank) && Linked(h'.mem, h'.first, h'.free, h'.rank)
    requires Fronted(h.free, h.first, h.rank, o, last, h'.first, h'.rank) && o !in h.free
    requires h'.free == if last then h.free else h.free + {o}
    ensures List(h') == if last then List(h) else [o] + List(h)
  {
    ListIsList(h);
    ListIsList(h');
    var s := if last then List(h) else [o] + List(h);
    forall i, j | 0 <= i < j < |s| ensures Place(h'.rank, s[i]) < Place(h'.rank, s[j]) {
      FirstIsLowest(h'.mem, h'.first, h'.free, h'.rank, s[j]);
    }
    RisingUnique(h'.rank, List(h'), s);
  }

  /** The elements of s that are in `kept`, in their order. */
  function Only(s: seq<int>, kept: set<int>): seq<int> {
    if s == [] then [] else (if s[0] in kept then [s[0]] else []) + Only(s[1..], kept)
  }

  lemma {:induction false} OnlyRises(rank: map<int, int>, s: seq<int>, kept: set<int>)
    requires forall i, j :: 0 <= i < j < |s| ==> Place(rank, s[i]) < Place(rank, s[j])
    ensures forall i, j :: 0 <= i < j < |Only(s, kept)| ==> Place(rank, Only(s, kept)[i]) < Place(rank, Only(s, kept)[j])
    ensures forall x :: x in Only(s, kept) <==> x in s && x in kept
    decreases |s|
  {
    if s != [] {
      OnlyRises(rank, s[1..], kept);
      var r := Only(s[1..], kept);
      forall i | 0 <= i < |r| ensures Place(rank, s[0]) < Place(rank, r[i]) {
        assert r[i] in r && r[i] in s[1..];
      }
      forall x ensures x in Only(s, kept) <==> x in s && x in kept { assert s == [s[0]] + s[1..]; }
    }
  }

  /** Taking chunks off the list, by allocation or by coalescing, leaves the others in their
      order. */
  lemma ListKept(h: Arena, h': Arena)
    requires Linked(h.mem, h.first, h.free, h.rank) && Linked(h'.mem, h'.first, h'.free, h'.rank)
    requires h'.rank == h.rank && h'.free <= h.free
    ensures List(h') == Only(List(h), h'.free)
  {
    ListIsList(h);
    ListIsList(h');
    OnlyRises(h.rank, List(h), h'.free);
    RisingUnique(h.rank, List(h'), Only(List(h), h'.free));
  }

  // ----- last in, first out -----

  /** Chunk o is free, first on the list, and no free chunk is next to it. */
  ghost predicate FreshlyFree(hs: nat, h: Arena, o: int) {
    && o in h.free && h.first == o && HeadAt(h.mem, o)
    && End(hs, h.mem, o) in h.chunks && End(hs, h.mem, o) !in h.free
    && forall f :: f in h.free ==> !Shadows(h.chunks, h.free, f, o)
  }

  /** Defragmentation leaves such a chunk as it is, at the head of the list. */
  lemma FreshSurvives(hs: nat, a: nat, total: int, h: Arena, o: int, at: Arena)
    requires a > 0 && h in Arenas(hs, a, total) && FreshlyFree(hs, h, o) && at in Defragmentations(hs, a, total, h)
    ensures at.first == o && o in at.free && SizeAt(at.mem, o) == SizeAt(h.mem, o)
  {
    var vs :| Visited(h, vs) && Coalesced(hs, h, at, vs);
    var e := End(hs, h.mem, o);
    assert !Shadowed(h.chunks, h.free, vs, o) && !Shadowed(h.chunks, h.free, vs, e);
    FirstIsLowest(at.mem, at.first, at.free, at.rank, o);
    FirstIsLowest(h.mem, h.first, h.free, h.rank, at.first);
    assert e in at.chunks && o in at.chunks;
    EndsAt(hs, h.mem, at.mem, h.usage, h.chunks, at.chunks, o);
  }

  /** A chunk whose successor is left ends where it ended. */
  lemma EndsAt(hs: nat, m: seq<Cell>, m': seq<Cell>, usage: int, chunks: set<int>, chunks': set<int>, o: int)
    requires Tiled(hs, m, usage, chunks) && Tiled(hs, m', usage, chunks') && chunks' <= chunks
    requires o in chunks' && End(hs, m, o) in chunks'
    ensures m'[o].h.size == m[o].h.size
  {
    assert End(hs, m', o) <= End(hs, m, o) < usage;
  }

  /** So the next request of exactly its size gets the chunk that was freed last. */
  lemma FreedLastIsUsedFirst(hs: nat, a: nat, total: int, h: Arena, o: int, size: nat, at: Arena, chunk: int)
    requires a > 0 && h in Arenas(hs, a, total) && FreshlyFree(hs, h, o) && SizeAt(h.mem, o) == size
    requires at in Choices(hs, a, total, h, size, chunk)
    ensures chunk == o
  {
    FreshSurvives(hs, a, total, h, o, at);
    var b := if BestOf(at, size, NULL) then NULL else chunk;
    HeadFits(at, size, b);
  }

  lemma HeadFits(at: Arena, size: nat, best: int)
    requires HeadAt(at.mem, at.first) && SizeAt(at.mem, at.first) == size && at.first != NULL && BestOf(at, size, best)
    ensures best == at.first
  {
    var w := Walk(at.mem, at.first, CHUNK_SEARCH_MAX);
    assert |w| > 0 && w[0] == at.first;
    var k :| BestFit(at.mem, w, |w|, size, best, k);
    assert SizeAt(at.mem, w[0]) == size;
  }
}
