/** The heap of contiki-ng/os/lib/heapmem.c: a static arena tiled by chunks.  A chunk is a
    header followed by its data; unallocated chunks are kept on a doubly linked list that
    runs through the headers.

    Memory is a sequence of cells, one per byte.  The first cell of a header holds its
    fields, the other cells of a header hold padding, so writing a header where an object
    lives would destroy the object's bytes.  A pointer is an offset into the arena. */
module HeapMem {
  import opened Arith
  import opened HeapSweep

  datatype Header = Header(prev: int, next: int, size: int, inUse: bool)

  datatype Cell = Byte(b: int) | Head(h: Header) | Pad

  const NULL: int := -1
  const CHUNK_SEARCH_MAX: nat := 16

  // ----- memory -----

  predicate HeadAt(m: seq<Cell>, o: int) { 0 <= o < |m| && m[o].Head? }

  /** m' is m with a header written at o over whatever was there. */
  ghost predicate Overwritten(hs: nat, m: seq<Cell>, o: int, h: Header, m': seq<Cell>) {
    && |m'| == |m| && 0 <= o && o + hs <= |m| && hs > 0 && m'[o] == Head(h)
    && (forall i :: o < i < o + hs ==> m'[i] == Pad)
    && (forall i :: 0 <= i < |m| && !(o <= i < o + hs) ==> m'[i] == m[i])
  }

  predicate Divides(a: nat, x: int) { a > 0 && x % a == 0 }

  /** x is a multiple of a (see MultipleExactly); the quantifier keeps the division out of
      proofs that only pass multiples on. */
  ghost predicate Multiple(a: nat, x: int) {
    forall y {:trigger Divides(a, y)} :: y == x ==> Divides(a, y)
  }

  lemma MultipleExactly(a: nat, x: int)
    requires a > 0
    ensures Multiple(a, x) <==> x % a == 0
  {
    assert Multiple(a, x) <==> Divides(a, x);
  }

  lemma SumMultiple(a: nat, x: int, y: int)
    requires Multiple(a, x) && Multiple(a, y)
    ensures Multiple(a, x + y) && Multiple(a, x - y)
  {
    assert Divides(a, x) && Divides(a, y);
    assert y == a * (y / a);
    ModShift(x, y / a, a);
    ModShift(x, -(y / a), a);
    assert a * -(y / a) == -y;
  }

  /** ALIGN(size): the next multiple of a. */
  function Align(a: nat, size: nat): (r: nat)
    requires a > 0
    ensures size <= r < size + a && Multiple(a, r)
    decreases size
  {
    if size == 0 then ModSmall(0, a); 0
    else if size <= a then ModShift(0, 1, a); ModSmall(0, a); a
    else SumMultiple(a, Align(a, size - a), a); a + Align(a, size - a)
  }

  /** m' is m after memcpy of n cells from src to dst. */
  ghost predicate Copied(m: seq<Cell>, dst: int, src: int, n: nat, m': seq<Cell>) {
    && |m'| == |m| && 0 <= dst && dst + n <= |m| && 0 <= src && src + n <= |m|
    && (forall i :: 0 <= i < |m| && !(dst <= i < dst + n) ==> m'[i] == m[i])
    && m'[dst..dst + n] == m[src..src + n]
  }

  ghost function Copies(m: seq<Cell>, dst: int, src: int, n: nat): iset<seq<Cell>> {
    iset m' | Copied(m, dst, src, n, m')
  }

  // ----- the tiling -----

  /** NEXT_CHUNK. */
  function End(hs: nat, m: seq<Cell>, o: int): int
    requires HeadAt(m, o)
  {
    o + hs + m[o].h.size
  }

  /** The chunks tile [0, usage): they start at 0, no two overlap, and each one ends where
      another one starts or at usage. */
  ghost predicate Tiled(hs: nat, m: seq<Cell>, usage: int, chunks: set<int>) {
    && hs > 0 && 0 <= usage <= |m|
    && (usage > 0 ==> 0 in chunks)
    && (forall o :: o in chunks ==> 0 <= o < usage && m[o].Head? && 0 <= m[o].h.size <= usage - o - hs)
    && (forall o, p :: o in chunks && p in chunks && o < p ==> o + hs + m[o].h.size <= p)
    && (forall o {:trigger End(hs, m, o)} :: o in chunks ==> End(hs, m, o) == usage || End(hs, m, o) in chunks)
  }

  /** Every chunk starts at, and has, a multiple of the alignment. */
  ghost predicate Aligned(a: nat, m: seq<Cell>, chunks: set<int>) {
    a > 0 && forall o :: o in chunks ==> HeadAt(m, o) && Multiple(a, o) && Multiple(a, m[o].h.size)
  }

  // ----- the free list -----

  /** Element x of the doubly linked list over `free`: its links name elements that name it
      back, ranks grow along the list, and only the first element has no predecessor. */
  ghost predicate Node(m: seq<Cell>, first: int, free: set<int>, rank: map<int, int>, x: int) {
    && HeadAt(m, x) && x in rank
    && (m[x].h.next == NULL ||
        (&& m[x].h.next in free && HeadAt(m, m[x].h.next) && m[m[x].h.next].h.prev == x
         && m[x].h.next in rank && rank[x] < rank[m[x].h.next]))
    && (if x == first then m[x].h.prev == NULL
        else && m[x].h.prev in free && HeadAt(m, m[x].h.prev) && m[m[x].h.prev].h.next == x
             && first in rank && rank[first] < rank[x])
  }

  /** The list that starts at `first` has exactly the elements `free`. */
  ghost predicate Linked(m: seq<Cell>, first: int, free: set<int>, rank: map<int, int>) {
    && (if first == NULL then forall x :: x !in free else first in free)
    && (forall x :: x in free ==> HeadAt(m, x))
    && (forall x {:trigger Node(m, first, free, rank, x)} :: x in free ==> Node(m, first, free, rank, x))
  }

  ghost predicate Listed(m: seq<Cell>, chunks: set<int>, free: set<int>) {
    && free <= chunks
    && forall o :: o in chunks ==> HeadAt(m, o) && (o in free <==> !m[o].h.inUse)
  }

  /** m' differs from m only in the list links of the headers at `s` and the flag at o. */
  ghost predicate LinksOnly(m: seq<Cell>, m': seq<Cell>, s: set<int>, o: int) {
    && |m'| == |m|
    && (forall i :: 0 <= i < |m| && i !in s ==> m'[i] == m[i])
    && (forall i :: i in s && HeadAt(m, i) ==>
          m'[i].Head? && m'[i].h.size == m[i].h.size && (i != o ==> m'[i].h.inUse == m[i].h.inUse))
  }

  lemma LinkedSame(m: seq<Cell>, first: int, free: set<int>, rank: map<int, int>, m': seq<Cell>)
    requires Linked(m, first, free, rank) && |m| == |m'|
    requires forall x :: x in free ==> m'[x].Head? && m'[x].h.prev == m[x].h.prev && m'[x].h.next == m[x].h.next
    ensures Linked(m', first, free, rank)
  {
    forall x | x in free ensures Node(m', first, free, rank, x) { assert Node(m, first, free, rank, x); }
  }

  /** What freeing chunk o does to the order of the list: nothing if o was the last chunk of
      the used space; otherwise o comes first and the others keep their order. */
  ghost predicate Fronted(free: set<int>, first: int, rank: map<int, int>, o: int, last: bool, first': int, rank': map<int, int>) {
    if last then first' == first && rank' == rank
    else first' == o && forall x :: x in free ==> Place(rank', x) == Place(rank, x)
  }

  lemma Pushed(m: seq<Cell>, first: int, free: set<int>, rank: map<int, int>, o: int, m': seq<Cell>)
    requires Linked(m, first, free, rank) && o !in free && HeadAt(m', o) && |m| == |m'|
    requires m'[o].h.prev == NULL && m'[o].h.next == first
    requires forall x :: x in free && x != first ==> m'[x] == m[x]
    requires first != NULL ==> m'[first] == Head(m[first].h.(prev := o)) && first in rank
    ensures Linked(m', o, free + {o}, rank[o := if first == NULL then 0 else rank[first] - 1])
  {
    var free', rank' := free + {o}, rank[o := if first == NULL then 0 else rank[first] - 1];
    if first != NULL { assert Node(m, first, free, rank, first); }
    forall x | x in free' ensures Node(m', o, free', rank', x) {
      if x in free { assert Node(m, first, free, rank, x); }
    }
  }

  /** What removing o leaves of element x: the neighbours of o skip it. */
  ghost predicate Skips(m: seq<Cell>, m': seq<Cell>, o: int, x: int) {
    && HeadAt(m, x) && HeadAt(m', x) && HeadAt(m, o)
    && m'[x].h.prev == (if m[o].h.next == x then m[o].h.prev else m[x].h.prev)
    && m'[x].h.next == (if m[o].h.prev == x then m[o].h.next else m[x].h.next)
  }

  lemma Removed(m: seq<Cell>, first: int, free: set<int>, rank: map<int, int>, o: int, m': seq<Cell>)
    requires Linked(m, first, free, rank) && o in free && |m| == |m'|
    requires forall x :: x in free && x != o ==> Skips(m, m', o, x)
    ensures Linked(m', if o == first then m[o].h.next else first, free - {o}, rank)
  {
    var first', free' := if o == first then m[o].h.next else first, free - {o};
    assert Node(m, first, free, rank, o);
    forall x | x in free' ensures first' != NULL && Node(m', first', free', rank, x) {
      assert Node(m, first, free, rank, x) && Skips(m, m', o, x);
      var n, p := m[x].h.next, m[x].h.prev;
      if n != NULL { assert Node(m, first, free, rank, n); assert n != o ==> Skips(m, m', o, n); }
      if p in free { assert Node(m, first, free, rank, p); assert p != o ==> Skips(m, m', o, p); }
      if m[o].h.next != NULL { assert Node(m, first, free, rank, m[o].h.next); }
      if m[o].h.prev in free { assert Node(m, first, free, rank, m[o].h.prev); }
      if o == first { SecondIsNext(m, first, free, rank, x); }
    }
  }

  /** The second element has the lowest rank after the first. */
  lemma {:induction false} SecondIsNext(m: seq<Cell>, first: int, free: set<int>, rank: map<int, int>, x: int)
    requires Linked(m, first, free, rank) && x in free && x != first
    ensures first in free && m[first].h.next in rank && x in rank
    ensures m[first].h.next != NULL && (x == m[first].h.next || rank[m[first].h.next] < rank[x])
    decreases if x in rank && first in rank then rank[x] - rank[first] else 0
  {
    assert Node(m, first, free, rank, x) && Node(m, first, free, rank, first);
    var p := m[x].h.prev;
    assert Node(m, first, free, rank, p);
    if p != first { SecondIsNext(m, first, free, rank, p); }
  }

  /** Ranks tell elements apart, and nothing ranks between an element and the next one. */
  lemma {:induction false} Successor(m: seq<Cell>, first: int, free: set<int>, rank: map<int, int>, c: int, y: int)
    requires Linked(m, first, free, rank) && c in free && y in free
    ensures c in rank && y in rank && HeadAt(m, c)
    ensures rank[c] < rank[y] ==> m[c].h.next in rank && rank[m[c].h.next] <= rank[y] && m[c].h.next in free
    ensures rank[c] == rank[y] ==> c == y
    decreases if c in rank && y in rank && first in rank then rank[c] + rank[y] - 2 * rank[first] else 0
  {
    assert Node(m, first, free, rank, c) && Node(m, first, free, rank, y) && Node(m, first, free, rank, first);
    if c != y && rank[c] <= rank[y] {
      var p := m[y].h.prev;
      assert Node(m, first, free, rank, p);
      if p != c && rank[c] < rank[y] {
        Successor(m, first, free, rank, c, p);
        Successor(m, first, free, rank, p, c);
      } else if p != c {
        var q := m[c].h.prev;
        assert Node(m, first, free, rank, q);
        Successor(m, first, free, rank, p, q);
        Successor(m, first, free, rank, q, p);
      }
    }
  }

  // ----- what a change of memory leaves alone -----

  /** The bytes of chunk o. */
  ghost function Data(hs: nat, m: seq<Cell>, o: int): (d: seq<Cell>)
    requires HeadAt(m, o) && m[o].h.size >= 0 && End(hs, m, o) <= |m|
    ensures |d| == m[o].h.size
  {
    m[o + hs..End(hs, m, o)]
  }

  /** Chunk x keeps its flag, its size and its bytes. */
  ghost predicate Kept(hs: nat, m: seq<Cell>, m': seq<Cell>, x: int) {
    && |m| == |m'| && HeadAt(m, x) && HeadAt(m', x)
    && m'[x].h.inUse == m[x].h.inUse && m'[x].h.size == m[x].h.size
    && m[x].h.size >= 0 && End(hs, m, x) <= |m| && Data(hs, m', x) == Data(hs, m, x)
  }

  /** The free chunk right after chunk o is absorbed by o. */
  lemma Merged(hs: nat, m: seq<Cell>, usage: int, chunks: set<int>, o: int, n: int, m': seq<Cell>)
    requires Tiled(hs, m, usage, chunks) && |m'| == |m|
    requires o in chunks && n in chunks && n == End(hs, m, o)
    requires forall x :: x in chunks ==> m'[x].Head?
    requires m'[o].h.size == m[o].h.size + hs + m[n].h.size
    requires forall x :: x in chunks && x != o ==> m'[x].h.size == m[x].h.size
    ensures Tiled(hs, m', usage, chunks - {n}) && End(hs, m', o) == End(hs, m, n)
  {
    var chunks' := chunks - {n};
    MergedEnds(hs, m, usage, chunks, o, n, m');
    forall x, y | x in chunks' && y in chunks' && x < y ensures End(hs, m', x) <= y {
      if x == o { assert n < y; }
    }
  }

  lemma MergedEnds(hs: nat, m: seq<Cell>, usage: int, chunks: set<int>, o: int, n: int, m': seq<Cell>)
    requires Tiled(hs, m, usage, chunks) && |m'| == |m|
    requires o in chunks && n in chunks && n == End(hs, m, o)
    requires forall x :: x in chunks ==> m'[x].Head?
    requires m'[o].h.size == m[o].h.size + hs + m[n].h.size
    requires forall x :: x in chunks && x != o ==> m'[x].h.size == m[x].h.size
    ensures forall x {:trigger End(hs, m', x)} :: x in chunks - {n} ==>
              End(hs, m', x) == usage || End(hs, m', x) in chunks - {n}
  {
    forall x | x in chunks - {n} ensures End(hs, m', x) == usage || End(hs, m', x) in chunks - {n} {
      assert End(hs, m, x) <= usage && End(hs, m, n) <= usage;
    }
  }

  /** Chunk o is cut at n: the rest becomes a chunk of its own. */
  lemma Cut(hs: nat, m: seq<Cell>, usage: int, chunks: set<int>, o: int, n: int, m': seq<Cell>)
    requires Tiled(hs, m, usage, chunks) && |m'| == |m|
    requires o in chunks && o + hs <= n && n + hs <= End(hs, m, o)
    requires (forall x :: x in chunks ==> m'[x].Head?) && m'[n].Head?
    requires End(hs, m', o) == n && End(hs, m', n) == End(hs, m, o)
    requires forall x :: x in chunks && x != o ==> m'[x].h.size == m[x].h.size
    ensures n !in chunks && Tiled(hs, m', usage, chunks + {n})
  {
    var chunks' := chunks + {n};
    forall x | x in chunks' ensures End(hs, m', x) == usage || End(hs, m', x) in chunks' {
      assert End(hs, m, if x == n then o else x) <= usage;
    }
    forall x, y | x in chunks' && y in chunks' && x < y ensures End(hs, m', x) <= y {
      if x in chunks && x != o && y == n { assert x < o; }
    }
  }

  /** The last chunk goes back to the unused space. */
  lemma Released(hs: nat, m: seq<Cell>, usage: int, chunks: set<int>, o: int)
    requires Tiled(hs, m, usage, chunks) && o in chunks && End(hs, m, o) == usage
    ensures Tiled(hs, m, o, chunks - {o})
  {
    forall x | x in chunks - {o} ensures End(hs, m, x) == o || End(hs, m, x) in chunks - {o} {
      assert End(hs, m, x) <= o;
    }
  }

  /** Unused space becomes a new last chunk. */
  lemma Extended(hs: nat, m: seq<Cell>, usage: int, chunks: set<int>, m': seq<Cell>)
    requires Tiled(hs, m, usage, chunks) && |m'| == |m|
    requires HeadAt(m', usage) && m'[usage].h.size >= 0 && End(hs, m', usage) <= |m|
    requires forall x :: x in chunks ==> m'[x].Head? && m'[x].h.size == m[x].h.size
    ensures Tiled(hs, m', End(hs, m', usage), chunks + {usage})
  {
    forall x | x in chunks ensures End(hs, m', x) == End(hs, m', usage) || End(hs, m', x) in chunks + {usage} {
      assert End(hs, m, x) <= usage;
    }
  }

  /** The last chunk grows into the unused space. */
  lemma GrownTiles(hs: nat, m: seq<Cell>, usage: int, chunks: set<int>, o: int, m': seq<Cell>)
    requires Tiled(hs, m, usage, chunks) && |m'| == |m| && o in chunks && End(hs, m, o) == usage
    requires forall x :: x in chunks ==> m'[x].Head?
    requires forall x :: x in chunks && x != o ==> m'[x].h.size == m[x].h.size
    requires m'[o].h.size >= m[o].h.size && End(hs, m', o) <= |m|
    ensures Tiled(hs, m', End(hs, m', o), chunks)
  {
    forall x | x in chunks ensures End(hs, m', x) == End(hs, m', o) || End(hs, m', x) in chunks {
      assert End(hs, m, x) <= usage;
    }
  }

  /** Headers that keep their sizes keep the tiling. */
  lemma SameSizes(hs: nat, m: seq<Cell>, usage: int, chunks: set<int>, m': seq<Cell>)
    requires Tiled(hs, m, usage, chunks) && |m'| == |m|
    requires forall x :: x in chunks ==> m'[x].Head? && m'[x].h.size == m[x].h.size
    ensures Tiled(hs, m', usage, chunks)
  {
    forall x | x in chunks ensures End(hs, m', x) == usage || End(hs, m', x) in chunks {
      assert End(hs, m, x) <= usage;
    }
  }

  /** Rewriting headers of chunks, or cells inside chunk o, touches no data of others. */
  lemma DataKept(hs: nat, m: seq<Cell>, usage: int, chunks: set<int>, o: int, m': seq<Cell>, x: int)
    requires Tiled(hs, m, usage, chunks) && |m'| == |m| && o in chunks && x in chunks && x != o
    requires forall i :: 0 <= i < |m| && i !in chunks && !(o + hs <= i < End(hs, m, o)) ==> m'[i] == m[i]
    ensures m'[x + hs..End(hs, m, x)] == m[x + hs..End(hs, m, x)]
  {
    assert End(hs, m, x) <= o || End(hs, m, o) <= x;
    forall i | x + hs <= i < End(hs, m, x) ensures m'[i] == m[i] { assert i !in chunks; }
  }

  lemma UsageAligned(hs: nat, a: nat, m: seq<Cell>, usage: int, chunks: set<int>)
    requires Tiled(hs, m, usage, chunks) && Aligned(a, m, chunks) && Multiple(a, hs)
    ensures Multiple(a, usage)
  {
    if usage == 0 {
      ModSmall(0, a);
    } else {
      var l := LastChunk(hs, m, usage, chunks, 0);
      SumMultiple(a, l, hs);
      SumMultiple(a, l + hs, m[l].h.size);
    }
  }

  /** Some chunk ends at usage. */
  lemma {:induction false} LastChunk(hs: nat, m: seq<Cell>, usage: int, chunks: set<int>, o: int) returns (l: int)
    requires Tiled(hs, m, usage, chunks) && o in chunks
    ensures l in chunks && End(hs, m, l) == usage
    decreases usage - o
  {
    assert End(hs, m, o) <= usage;
    if End(hs, m, o) == usage { l := o; } else { l := LastChunk(hs, m, usage, chunks, End(hs, m, o)); }
  }

  /** Memory m' is m with chunk o cut at n, and nothing else changed but list links. */
  ghost predicate CutAt(hs: nat, m: seq<Cell>, chunks: set<int>, o: int, n: int, m': seq<Cell>) {
    && |m'| == |m| && HeadAt(m, o) && HeadAt(m', o) && HeadAt(m', n) && !m'[n].h.inUse
    && (forall x :: x in chunks ==> HeadAt(m, x) && HeadAt(m', x) && m'[x].h.inUse == m[x].h.inUse)
    && (forall x :: x in chunks && x != o ==> m'[x].h.size == m[x].h.size)
    && (forall i :: 0 <= i < |m| && i !in chunks && !(n <= i < n + hs) ==> m'[i] == m[i])
    && End(hs, m', o) == n && End(hs, m', n) == End(hs, m, o)
  }

  /** No chunk starts inside another one. */
  lemma InsideChunk(hs: nat, m: seq<Cell>, usage: int, chunks: set<int>, o: int, n: int)
    requires Tiled(hs, m, usage, chunks) && o in chunks && o < n && n + hs <= End(hs, m, o)
    ensures forall x :: x in chunks ==> !(n <= x < n + hs)
  {}

  lemma CutDone(hs: nat, m: seq<Cell>, usage: int, chunks: set<int>, free: set<int>, o: int, n: int,
                m1: seq<Cell>, m2: seq<Cell>, m3: seq<Cell>)
    requires |m| == |m1| == |m2| == |m3| && free <= chunks && o in chunks && o < n
    requires forall x :: x in chunks ==> HeadAt(m, x) && !(n <= x < n + hs)
    requires 0 <= n < |m| && m1[n] == Head(Header(NULL, NULL, End(hs, m, o) - n - hs, false))
    requires forall i :: 0 <= i < |m| && !(n <= i < n + hs) ==> m1[i] == m[i]
    requires LinksOnly(m1, m2, free + {n}, n) && !m2[n].h.inUse && hs > 0
    requires m3 == m2[o := Head(m2[o].h.(size := n - o - hs, next := NULL, prev := NULL))]
    ensures CutAt(hs, m, chunks, o, n, m3)
  {
  }

  lemma CutKeepsFront(hs: nat, m: seq<Cell>, usage: int, chunks: set<int>, o: int, n: int, m': seq<Cell>)
    requires Tiled(hs, m, usage, chunks) && o in chunks && CutAt(hs, m, chunks, o, n, m')
    requires o + hs <= n && n + hs <= End(hs, m, o)
    ensures m'[o + hs..n] == m[o + hs..n]
  {
    forall i | o + hs <= i < n ensures m'[i] == m[i] { assert i !in chunks; }
  }

  lemma CutAligned(hs: nat, a: nat, m: seq<Cell>, chunks: set<int>, o: int, n: int, m': seq<Cell>)
    requires Aligned(a, m, chunks) && Multiple(a, hs) && o in chunks && Multiple(a, n - o - hs)
    requires CutAt(hs, m, chunks, o, n, m')
    ensures Aligned(a, m', chunks + {n})
  {
    SumMultiple(a, o, hs);
    SumMultiple(a, o + hs, n - o - hs);
    SumMultiple(a, m[o].h.size, n - o - hs);
    SumMultiple(a, m[o].h.size - (n - o - hs), hs);
  }

  lemma SplitAligned(hs: nat, a: nat, m: seq<Cell>, chunks: set<int>, o: int, n: int, m': seq<Cell>, chunks': set<int>)
    requires Aligned(a, m, chunks) && Multiple(a, hs) && o in chunks && Multiple(a, n - o - hs)
    requires CutAt(hs, m, chunks, o, n, m') && chunks' <= chunks + {n}
    ensures Aligned(a, m', chunks')
  {
    CutAligned(hs, a, m, chunks, o, n, m');
  }

  /** What a split leaves: chunk o shortened, the others as they were, and the rest of o
      on the free list, or back in the unused space when o was the last chunk. */
  lemma SplitDone(hs: nat, m: seq<Cell>, usage: int, chunks: set<int>, free: set<int>, o: int, n: int,
                  m': seq<Cell>, chunks': set<int>, free': set<int>, usage': int)
    requires Tiled(hs, m, usage, chunks) && Listed(m, chunks, free)
    requires o in chunks && m[o].h.inUse && o + hs <= n && n + hs <= End(hs, m, o)
    requires CutAt(hs, m, chunks, o, n, m')
    requires if End(hs, m, o) == usage then usage' == n && chunks' == chunks && free' == free
             else usage' == usage && chunks' == chunks + {n} && free' == free + {n}
    ensures Tiled(hs, m', usage', chunks') && Listed(m', chunks', free')
    ensures forall x :: x in chunks && x != o ==> Kept(hs, m, m', x)
    ensures Data(hs, m', o) <= Data(hs, m, o)
  {
    Cut(hs, m, usage, chunks, o, n, m');
    SplitKeeps(hs, m, usage, chunks, o, n, m');
    if End(hs, m, o) == usage {
      Released(hs, m', usage, chunks + {n}, n);
      assert chunks + {n} - {n} == chunks;
    }
  }

  lemma SplitKeeps(hs: nat, m: seq<Cell>, usage: int, chunks: set<int>, o: int, n: int, m': seq<Cell>)
    requires Tiled(hs, m, usage, chunks) && o in chunks && CutAt(hs, m, chunks, o, n, m')
    requires o + hs <= n && n + hs <= End(hs, m, o)
    ensures forall x :: x in chunks && x != o ==> Kept(hs, m, m', x)
    ensures Data(hs, m', o) <= Data(hs, m, o)
  {
    CutKeepsFront(hs, m, usage, chunks, o, n, m');
    forall x | x in chunks && x != o ensures Kept(hs, m, m', x) {
      DataKept(hs, m, usage, chunks, o, m', x);
    }
  }

  /** From (m, chunks) to (m', chunks') chunk o absorbed free chunks that followed it: it
      keeps its flag and its bytes as a prefix, and all other remaining chunks are kept. */
  ghost predicate Absorbed(hs: nat, m: seq<Cell>, chunks: set<int>, m': seq<Cell>, chunks': set<int>, o: int) {
    && chunks' <= chunks && o in chunks' && |m| == |m'|
    && HeadAt(m, o) && HeadAt(m', o) && m'[o].h.inUse == m[o].h.inUse
    && 0 <= m[o].h.size <= m'[o].h.size && End(hs, m', o) <= |m| && Data(hs, m, o) <= Data(hs, m', o)
    && (forall x :: x in chunks' && x != o ==> Kept(hs, m, m', x))
    && (forall x :: x in chunks && HeadAt(m, x) && (m[x].h.inUse || x <= o) ==> x in chunks')
    && (forall x :: x in chunks && x !in chunks' ==> x < End(hs, m', o))
  }

  lemma AbsorbedMore(hs: nat, m: seq<Cell>, chunks: set<int>, m1: seq<Cell>, chunks1: set<int>,
                     m2: seq<Cell>, chunks2: set<int>, o: int)
    requires Absorbed(hs, m, chunks, m1, chunks1, o) && Absorbed(hs, m1, chunks1, m2, chunks2, o)
    ensures Absorbed(hs, m, chunks, m2, chunks2, o)
  {
    forall x | x in chunks2 && x != o ensures Kept(hs, m, m2, x) {
      assert Kept(hs, m, m1, x) && Kept(hs, m1, m2, x);
    }
    forall x | x in chunks && HeadAt(m, x) && (m[x].h.inUse || x <= o) ensures x in chunks2 {
      assert x in chunks1;
      if x != o { assert Kept(hs, m, m1, x); }
    }
  }

  /** Memory m' is m with the free chunk n, right after o, merged into o: sizes, flags, and
      no cell but headers of chunks changed. */
  ghost predicate United(hs: nat, m: seq<Cell>, chunks: set<int>, o: int, n: int, m': seq<Cell>) {
    && |m'| == |m| && o in chunks && n in chunks && HeadAt(m, o) && HeadAt(m, n) && n == End(hs, m, o) && o != n
    && (forall x :: x in chunks ==> HeadAt(m, x) && HeadAt(m', x))
    && (forall x :: x in chunks && x != n ==> m'[x].h.inUse == m[x].h.inUse)
    && (forall x :: x in chunks && x != o ==> m'[x].h.size == m[x].h.size)
    && m'[o].h.size == m[o].h.size + hs + m[n].h.size
    && (forall i :: 0 <= i < |m| && i !in chunks ==> m'[i] == m[i])
  }

  lemma UnitedByLinks(hs: nat, m: seq<Cell>, usage: int, chunks: set<int>, free: set<int>, o: int, n: int,
                      m1: seq<Cell>, m2: seq<Cell>)
    requires Tiled(hs, m, usage, chunks) && Listed(m, chunks, free)
    requires o in chunks && n == End(hs, m, o) && n in chunks && n in free
    requires m1 == m[o := Head(m[o].h.(size := m[o].h.size + hs + m[n].h.size))]
    requires LinksOnly(m1, m2, free, n)
    ensures United(hs, m, chunks, o, n, m2)
  {}

  lemma UnitedKeeps(hs: nat, m: seq<Cell>, usage: int, chunks: set<int>, o: int, n: int, m': seq<Cell>)
    requires Tiled(hs, m, usage, chunks) && United(hs, m, chunks, o, n, m')
    ensures forall x :: x in chunks && x != o && x != n ==> Kept(hs, m, m', x)
  {
    forall x | x in chunks && x != o && x != n ensures Kept(hs, m, m', x) { DataKept(hs, m, usage, chunks, o, m', x); }
  }

  lemma UnitedAbsorbs(hs: nat, m: seq<Cell>, usage: int, chunks: set<int>, o: int, n: int, m': seq<Cell>)
    requires Tiled(hs, m, usage, chunks) && United(hs, m, chunks, o, n, m') && !m[n].h.inUse
    ensures Absorbed(hs, m, chunks, m', chunks - {n}, o)
  {
    assert End(hs, m, n) <= usage && End(hs, m', o) == End(hs, m, n);
    UnitedKeeps(hs, m, usage, chunks, o, n, m');
    MergedData(hs, m, usage, chunks, o, m');
  }

  lemma MergeDone(hs: nat, m: seq<Cell>, usage: int, chunks: set<int>, free: set<int>, o: int, n: int, m': seq<Cell>)
    requires Tiled(hs, m, usage, chunks) && Listed(m, chunks, free) && n in free && United(hs, m, chunks, o, n, m')
    ensures Tiled(hs, m', usage, chunks - {n}) && Listed(m', chunks - {n}, free - {n})
    ensures Absorbed(hs, m, chunks, m', chunks - {n}, o)
    ensures End(hs, m', n) == End(hs, m', o) == End(hs, m, n)
  {
    Merged(hs, m, usage, chunks, o, n, m');
    UnitedAbsorbs(hs, m, usage, chunks, o, n, m');
  }

  /** Chunks that keep their sizes keep their alignment. */
  lemma AlignedSame(a: nat, m: seq<Cell>, chunks: set<int>, m': seq<Cell>, chunks': set<int>)
    requires Aligned(a, m, chunks) && chunks' <= chunks
    requires forall x :: x in chunks' ==> HeadAt(m', x) && m'[x].h.size == m[x].h.size
    ensures Aligned(a, m', chunks')
  {}

  lemma AlignedGrown(a: nat, m: seq<Cell>, chunks: set<int>, o: int, size: nat, m': seq<Cell>)
    requires Aligned(a, m, chunks) && o in chunks && Multiple(a, size) && m' == m[o := Head(m[o].h.(size := size))]
    ensures Aligned(a, m', chunks)
  {}

  lemma AlignedExtended(hs: nat, a: nat, m: seq<Cell>, usage: int, chunks: set<int>, size: nat, m': seq<Cell>)
    requires Tiled(hs, m, usage, chunks) && Aligned(a, m, chunks) && Multiple(a, hs) && Multiple(a, size)
    requires Overwritten(hs, m, usage, Header(NULL, NULL, size, true), m') && usage + hs + size <= |m|
    ensures Aligned(a, m', chunks + {usage})
  {
    UsageAligned(hs, a, m, usage, chunks);
  }

  lemma MergedAligned(hs: nat, a: nat, m: seq<Cell>, chunks: set<int>, o: int, n: int, m': seq<Cell>)
    requires Aligned(a, m, chunks) && Multiple(a, hs) && o in chunks && n in chunks && |m'| == |m|
    requires forall x :: x in chunks ==> 0 <= x < |m| && m'[x].Head? && (x != o ==> m'[x].h.size == m[x].h.size)
    requires HeadAt(m', o) && m'[o].h.size == m[o].h.size + hs + m[n].h.size
    ensures Aligned(a, m', chunks - {n})
  {
    SumMultiple(a, m[o].h.size, hs);
    SumMultiple(a, m[o].h.size + hs, m[n].h.size);
  }

  lemma MergedData(hs: nat, m: seq<Cell>, usage: int, chunks: set<int>, o: int, m': seq<Cell>)
    requires Tiled(hs, m, usage, chunks) && o in chunks && |m| == |m'|
    requires forall i :: 0 <= i < |m| && i !in chunks ==> m'[i] == m[i]
    requires HeadAt(m', o) && m'[o].h.size >= m[o].h.size && End(hs, m', o) <= |m|
    ensures Data(hs, m, o) <= Data(hs, m', o)
  {
    var n := End(hs, m, o);
    forall i | o + hs <= i < n ensures m'[i] == m[i] { assert i !in chunks; }
    assert Data(hs, m, o) == m'[o + hs..n];
  }

  /** Chunk o was taken off the list and marked allocated. */
  lemma TakeDone(hs: nat, m: seq<Cell>, usage: int, chunks: set<int>, free: set<int>, o: int, m': seq<Cell>)
    requires Tiled(hs, m, usage, chunks) && Listed(m, chunks, free)
    requires o in free && LinksOnly(m, m', free, o) && m'[o].h.inUse
    ensures Tiled(hs, m', usage, chunks) && Listed(m', chunks, free - {o})
    ensures forall x :: x in chunks && x != o ==> Kept(hs, m, m', x)
  {
    SameSizes(hs, m, usage, chunks, m');
    forall x | x in chunks && x != o ensures Kept(hs, m, m', x) { DataKept(hs, m, usage, chunks, o, m', x); }
  }

  /** Chunk o was marked free and listed, or released when it was the last one. */
  lemma FreeDone(hs: nat, m: seq<Cell>, usage: int, chunks: set<int>, free: set<int>, o: int,
                 m': seq<Cell>, usage': int, chunks': set<int>, free': set<int>)
    requires Tiled(hs, m, usage, chunks) && Listed(m, chunks, free)
    requires o in chunks && m[o].h.inUse && LinksOnly(m, m', free + {o}, o) && !m'[o].h.inUse
    requires if End(hs, m, o) == usage then usage' == o && chunks' == chunks - {o} && free' == free
             else usage' == usage && chunks' == chunks && free' == free + {o}
    ensures Tiled(hs, m', usage', chunks') && Listed(m', chunks', free')
    ensures forall x :: x in chunks && x != o ==> x in chunks' && Kept(hs, m, m', x)
  {
    FreeTiles(hs, m, usage, chunks, free, o, m');
    FreeKeeps(hs, m, usage, chunks, free, o, m');
    if End(hs, m, o) == usage { Released(hs, m', usage, chunks, o); }
  }

  lemma FreeTiles(hs: nat, m: seq<Cell>, usage: int, chunks: set<int>, free: set<int>, o: int, m': seq<Cell>)
    requires Tiled(hs, m, usage, chunks) && Listed(m, chunks, free) && o in chunks && LinksOnly(m, m', free + {o}, o)
    ensures Tiled(hs, m', usage, chunks) && End(hs, m', o) == End(hs, m, o)
    ensures forall x :: x in chunks && x != o ==> HeadAt(m', x) && m'[x].h.inUse == m[x].h.inUse
  {
    SameSizes(hs, m, usage, chunks, m');
  }

  lemma FreeKeeps(hs: nat, m: seq<Cell>, usage: int, chunks: set<int>, free: set<int>, o: int, m': seq<Cell>)
    requires Tiled(hs, m, usage, chunks) && Listed(m, chunks, free) && o in chunks && LinksOnly(m, m', free + {o}, o)
    ensures forall x :: x in chunks && x != o ==> Kept(hs, m, m', x)
  {
    forall x | x in chunks && x != o ensures Kept(hs, m, m', x) { DataKept(hs, m, usage, chunks, o, m', x); }
  }

  /** Cells from the end of the used space on belong to no chunk. */
  lemma ExtendKeeps(hs: nat, m: seq<Cell>, usage: int, chunks: set<int>, m': seq<Cell>)
    requires Tiled(hs, m, usage, chunks) && |m| == |m'| && forall i :: 0 <= i < usage ==> m'[i] == m[i]
    ensures forall x :: x in chunks ==> Kept(hs, m, m', x)
  {
    forall x | x in chunks ensures Kept(hs, m, m', x) { assert Data(hs, m', x) == Data(hs, m, x); }
  }

  /** A header was written at the end of the used space. */
  lemma ExtendDone(hs: nat, m: seq<Cell>, usage: int, chunks: set<int>, free: set<int>, size: nat, m': seq<Cell>)
    requires Tiled(hs, m, usage, chunks) && Listed(m, chunks, free)
    requires usage + hs + size <= |m|
    requires Overwritten(hs, m, usage, Header(NULL, NULL, size, true), m')
    ensures Tiled(hs, m', usage + hs + size, chunks + {usage})
    ensures Listed(m', chunks + {usage}, free)
    ensures forall x :: x in chunks ==> Kept(hs, m, m', x)
  {
    Extended(hs, m, usage, chunks, m');
    ExtendKeeps(hs, m, usage, chunks, m');
  }

  // ----- the objects clients hold -----

  /** A new object o of at least `size` bytes, and every other object as it was. */
  ghost predicate Added(objs: map<int, seq<Cell>>, objs': map<int, seq<Cell>>, o: int, size: nat) {
    o !in objs && o in objs' && objs' - {o} == objs && size <= |objs'[o]|
  }

  /** The objects after an allocation of `size` bytes that returned ptr. */
  ghost function Allocations(objs: map<int, seq<Cell>>, ptr: int, hs: nat, size: nat): iset<map<int, seq<Cell>>> {
    iset objs' | Allocates(objs, objs', ptr, hs, size)
  }

  ghost predicate Allocates(objs: map<int, seq<Cell>>, objs': map<int, seq<Cell>>, ptr: int, hs: nat, size: nat) {
    if ptr == NULL then objs' == objs else Added(objs, objs', ptr - hs, size)
  }

  /** Object o was given more room: its bytes are a prefix of what it holds now. */
  ghost predicate Stretched(objs: map<int, seq<Cell>>, objs': map<int, seq<Cell>>, o: int) {
    o in objs && o in objs' && objs' - {o} == objs - {o} && objs[o] <= objs'[o]
  }

  /** Object o became q, with its first bytes, and every other object as it was. */
  ghost predicate Moved(objs: map<int, seq<Cell>>, objs': map<int, seq<Cell>>, o: int, q: int, size: nat) {
    && o in objs && q in objs' && objs' - {q} == objs - {o} && (q != o ==> q !in objs)
    && size <= |objs'[q]|
    && forall i :: 0 <= i < size && i < |objs[o]| ==> objs'[q][i] == objs[o][i]
  }

  /** Chunks lie in memory with their data. */
  ghost predicate InMemory(hs: nat, m: seq<Cell>, chunks: set<int>) {
    forall o :: o in chunks ==> 0 <= o < |m| && m[o].Head? && m[o].h.size >= 0 && End(hs, m, o) <= |m|
  }

  /** The bytes of the live objects, by the offset of their chunk. */
  ghost function Live(hs: nat, m: seq<Cell>, chunks: set<int>): map<int, seq<Cell>>
    requires InMemory(hs, m, chunks)
  {
    map o | o in chunks && m[o].h.inUse :: Data(hs, m, o)
  }

  ghost predicate LiveAt(m: seq<Cell>, chunks: set<int>, x: int) {
    x in chunks && HeadAt(m, x) && m[x].h.inUse
  }

  /** Objects other than o survive when their chunks are kept and none is added. */
  lemma LiveFrame(hs: nat, m: seq<Cell>, chunks: set<int>, m': seq<Cell>, chunks': set<int>, o: int)
    requires InMemory(hs, m, chunks) && InMemory(hs, m', chunks')
    requires forall x :: x != o && x in chunks && m[x].h.inUse ==> x in chunks' && Kept(hs, m, m', x)
    requires forall x :: x != o && x in chunks' && m'[x].h.inUse ==> LiveAt(m, chunks, x)
    ensures Live(hs, m', chunks') - {o} == Live(hs, m, chunks) - {o}
  {}

  lemma ReleaseDone(hs: nat, m: seq<Cell>, usage: int, chunks: set<int>, free: set<int>, o: int,
                    m': seq<Cell>, usage': int, chunks': set<int>, free': set<int>)
    requires Tiled(hs, m, usage, chunks) && Listed(m, chunks, free)
    requires o in chunks && m[o].h.inUse && LinksOnly(m, m', free + {o}, o) && !m'[o].h.inUse
    requires if End(hs, m, o) == usage then usage' == o && chunks' == chunks - {o} && free' == free
             else usage' == usage && chunks' == chunks && free' == free + {o}
    ensures Tiled(hs, m', usage', chunks') && Listed(m', chunks', free')
    ensures Live(hs, m', chunks') == Live(hs, m, chunks) - {o}
  {
    FreeDone(hs, m, usage, chunks, free, o, m', usage', chunks', free');
    LiveFrame(hs, m, chunks, m', chunks', o);
    assert o !in Live(hs, m', chunks');
  }

  lemma LiveAbsorbed(hs: nat, m: seq<Cell>, chunks: set<int>, m': seq<Cell>, chunks': set<int>, o: int)
    requires InMemory(hs, m, chunks) && InMemory(hs, m', chunks') && Absorbed(hs, m, chunks, m', chunks', o)
    ensures Live(hs, m', chunks') - {o} == Live(hs, m, chunks) - {o}
    ensures !m[o].h.inUse ==> Live(hs, m', chunks') == Live(hs, m, chunks)
  {
    LiveFrame(hs, m, chunks, m', chunks', o);
    if !m[o].h.inUse {
      assert Live(hs, m, chunks) - {o} == Live(hs, m, chunks);
      assert Live(hs, m', chunks') - {o} == Live(hs, m', chunks');
    }
  }

  /** Object o sits in a chunk that was not there before. */
  lemma LiveExtended(hs: nat, m: seq<Cell>, chunks: set<int>, m': seq<Cell>, o: int)
    requires InMemory(hs, m, chunks) && InMemory(hs, m', chunks + {o}) && o !in chunks && m'[o].h.inUse
    requires forall x :: x in chunks ==> Kept(hs, m, m', x)
    ensures Added(Live(hs, m, chunks), Live(hs, m', chunks + {o}), o, m'[o].h.size)
  {
    LiveFrame(hs, m, chunks, m', chunks + {o}, o);
    assert Live(hs, m, chunks) - {o} == Live(hs, m, chunks);
  }

  lemma InitDone(hs: nat, m: seq<Cell>, o: int, chunks: set<int>, first: int, free: set<int>,
                 rank: map<int, int>, size: nat, m': seq<Cell>)
    requires Tiled(hs, m, o, chunks) && Listed(m, chunks, free) && Linked(m, first, free, rank)
    requires o + hs + size <= |m|
    requires Overwritten(hs, m, o, Header(NULL, NULL, size, true), m')
    ensures Tiled(hs, m', o + hs + size, chunks + {o})
    ensures Listed(m', chunks + {o}, free) && Linked(m', first, free, rank)
    ensures Added(Live(hs, m, chunks), Live(hs, m', chunks + {o}), o, size)
  {
    ExtendDone(hs, m, o, chunks, free, size, m');
    LinkedSame(m, first, free, rank, m');
    LiveExtended(hs, m, chunks, m', o);
  }

  /** Only bytes of object o were written. */
  lemma WriteDone(hs: nat, m: seq<Cell>, usage: int, chunks: set<int>, free: set<int>, o: int, m': seq<Cell>)
    requires Tiled(hs, m, usage, chunks) && Listed(m, chunks, free)
    requires o in chunks && m[o].h.inUse && |m'| == |m|
    requires forall i :: 0 <= i < |m| && !(o + hs <= i < End(hs, m, o)) ==> m'[i] == m[i]
    ensures forall x :: x in chunks ==> m'[x] == m[x]
    ensures Tiled(hs, m', usage, chunks) && Listed(m', chunks, free)
    ensures Live(hs, m', chunks) == Live(hs, m, chunks)[o := Data(hs, m', o)]
  {
    forall x | x in chunks ensures m'[x] == m[x] {}
    SameSizes(hs, m, usage, chunks, m');
    forall x | x in chunks && x != o ensures Kept(hs, m, m', x) { DataKept(hs, m, usage, chunks, o, m', x); }
    LiveStored(hs, m, chunks, m', o, Data(hs, m', o));
  }

  lemma CopyDone(hs: nat, m: seq<Cell>, usage: int, chunks: set<int>, free: set<int>, q: int, o: int, n: nat, m': seq<Cell>)
    requires Tiled(hs, m, usage, chunks) && Listed(m, chunks, free)
    requires q in chunks && o in chunks && q != o && m[q].h.inUse && n <= m[q].h.size && n <= m[o].h.size
    requires Copied(m, q + hs, o + hs, n, m')
    ensures forall x :: x in chunks ==> m'[x] == m[x]
    ensures |m'| == |m| && Tiled(hs, m', usage, chunks) && Listed(m', chunks, free)
    ensures Live(hs, m', chunks) == Live(hs, m, chunks)[q := Data(hs, m, o)[..n] + Data(hs, m, q)[n..]]
  {
    WriteDone(hs, m, usage, chunks, free, q, m');
    CopiedData(hs, m, q, o, n, m');
  }

  lemma CopiedData(hs: nat, m: seq<Cell>, q: int, o: int, n: nat, m': seq<Cell>)
    requires HeadAt(m, q) && HeadAt(m, o) && n <= m[q].h.size && n <= m[o].h.size
    requires End(hs, m, q) <= |m| && End(hs, m, o) <= |m|
    requires Copied(m, q + hs, o + hs, n, m') && m'[q] == m[q]
    ensures Data(hs, m', q) == Data(hs, m, o)[..n] + Data(hs, m, q)[n..]
  {
    assert Data(hs, m', q) == m'[q + hs..q + hs + n] + m[q + hs + n..End(hs, m, q)];
    assert Data(hs, m, q)[n..] == m[q + hs + n..End(hs, m, q)] && Data(hs, m, o)[..n] == m[o + hs..o + hs + n];
  }

  lemma StoreDone(hs: nat, m: seq<Cell>, usage: int, chunks: set<int>, free: set<int>, o: int, i: nat, b: int, m': seq<Cell>)
    requires Tiled(hs, m, usage, chunks) && Listed(m, chunks, free)
    requires o in chunks && m[o].h.inUse && i < m[o].h.size && m' == m[o + hs + i := Byte(b)]
    ensures forall x :: x in chunks ==> m'[x] == m[x]
    ensures Tiled(hs, m', usage, chunks) && Listed(m', chunks, free)
    ensures Live(hs, m', chunks) == Live(hs, m, chunks)[o := Data(hs, m, o)[i := Byte(b)]]
  {
    WriteDone(hs, m, usage, chunks, free, o, m');
    assert Data(hs, m', o) == Data(hs, m, o)[i := Byte(b)];
  }

  lemma LiveStored(hs: nat, m: seq<Cell>, chunks: set<int>, m': seq<Cell>, o: int, d: seq<Cell>)
    requires InMemory(hs, m, chunks) && InMemory(hs, m', chunks) && o in chunks
    requires m[o].h.inUse && m'[o].h.inUse && Data(hs, m', o) == d
    requires forall x :: x in chunks && x != o ==> Kept(hs, m, m', x)
    ensures Live(hs, m', chunks) == Live(hs, m, chunks)[o := d]
  {
    LiveFrame(hs, m, chunks, m', chunks, o);
    var l, l' := Live(hs, m, chunks), Live(hs, m', chunks);
    assert l' == (l' - {o})[o := d] && l[o := d] == (l - {o})[o := d];
  }

  /** The last chunk was given `size` bytes. */
  lemma GrowDone(hs: nat, m: seq<Cell>, usage: int, chunks: set<int>, free: set<int>, o: int, size: nat, m': seq<Cell>)
    requires Tiled(hs, m, usage, chunks) && Listed(m, chunks, free)
    requires o in chunks && m[o].h.inUse && End(hs, m, o) == usage
    requires m[o].h.size < size && o + hs + size <= |m| && m' == m[o := Head(m[o].h.(size := size))]
    ensures Tiled(hs, m', o + hs + size, chunks) && Listed(m', chunks, free)
  {
    GrownTiles(hs, m, usage, chunks, o, m');
  }

  lemma GrowMoves(hs: nat, m: seq<Cell>, usage: int, chunks: set<int>, o: int, size: nat, m': seq<Cell>)
    requires Tiled(hs, m, usage, chunks) && Tiled(hs, m', o + hs + size, chunks)
    requires o in chunks && m[o].h.inUse && m[o].h.size < size && m' == m[o := Head(m[o].h.(size := size))]
    ensures Live(hs, m', chunks) in Moves(Live(hs, m, chunks), o, o, size)
  {
    OthersKept(hs, m, usage, chunks, o, m');
    LiveFrame(hs, m, chunks, m', chunks, o);
    GrowKeeps(hs, m, o, size, m');
  }

  /** A change of the header of chunk o alone. */
  lemma OthersKept(hs: nat, m: seq<Cell>, usage: int, chunks: set<int>, o: int, m': seq<Cell>)
    requires Tiled(hs, m, usage, chunks) && o in chunks && |m'| == |m|
    requires forall i :: 0 <= i < |m| && i != o ==> m'[i] == m[i]
    ensures forall x :: x in chunks && x != o ==> Kept(hs, m, m', x)
  {
    forall x | x in chunks && x != o ensures Kept(hs, m, m', x) { DataKept(hs, m, usage, chunks, o, m', x); }
  }

  lemma GrowKeeps(hs: nat, m: seq<Cell>, o: int, size: nat, m': seq<Cell>)
    requires HeadAt(m, o) && 0 <= m[o].h.size < size && o + hs + size <= |m| && hs > 0
    requires m' == m[o := Head(m[o].h.(size := size))]
    ensures forall i :: 0 <= i < m[o].h.size ==> Data(hs, m', o)[i] == Data(hs, m, o)[i]
  {}

  /** The outcomes of resizing object o: the object is at ptr with its first bytes, or
      ptr is NULL and it still has all of them. */
  ghost predicate Resized(objs: map<int, seq<Cell>>, objs': map<int, seq<Cell>>, o: int, ptr: int, hs: nat, size: nat) {
    if ptr == NULL then Stretched(objs, objs', o) else Moved(objs, objs', o, ptr - hs, size)
  }

  /** The objects after o was moved to q. */
  ghost function Moves(objs: map<int, seq<Cell>>, o: int, q: int, size: nat): iset<map<int, seq<Cell>>> {
    iset objs' | Moved(objs, objs', o, q, size)
  }

  lemma MovedVia(objs: map<int, seq<Cell>>, mid: map<int, seq<Cell>>, objs': map<int, seq<Cell>>, o: int, q: int, size: nat)
    requires Stretched(objs, mid, o) || mid == objs
    requires o in objs && Moved(mid, objs', o, q, size)
    ensures Moved(objs, objs', o, q, size)
  {
    assert q != o && q in objs ==> q in objs - {o};
  }

  lemma AddedKeeps(objs: map<int, seq<Cell>>, objs': map<int, seq<Cell>>, q: int, size: nat, o: int)
    requires Added(objs, objs', q, size) && o in objs
    ensures o != q && o in objs' && objs'[o] == objs[o]
  {
    assert (objs' - {q})[o] == objs[o];
  }

  lemma MovedByCopy(objs: map<int, seq<Cell>>, objs1: map<int, seq<Cell>>, objs2: map<int, seq<Cell>>, o: int, q: int, n: nat, size: nat)
    requires o in objs && Added(objs, objs1, q, size) && |objs[o]| < size && o in objs1 && objs1[o] == objs[o]
    requires n == |objs1[o]| && objs2 == objs1[q := objs1[o][..n] + objs1[q][n..]]
    ensures Moved(objs, objs2 - {o}, o, q, size)
  {
    assert (objs2 - {o}) - {q} == (objs1 - {q}) - {o};
  }

  lemma ResizedLess(objs: map<int, seq<Cell>>, objs': map<int, seq<Cell>>, o: int, ptr: int, hs: nat, more: nat, size: nat)
    requires Resized(objs, objs', o, ptr, hs, more) && size <= more
    ensures Resized(objs, objs', o, ptr, hs, size)
  {}

  // ----- statistics -----

  /** The bytes of all live objects below offset n. */
  ghost function LiveBytes(objs: map<int, seq<Cell>>, n: int): nat
    decreases n
  {
    if n <= 0 then 0 else LiveBytes(objs, n - 1) + if n - 1 in objs then |objs[n - 1]| else 0
  }

  lemma {:induction false} NoObjectBetween(objs: map<int, seq<Cell>>, a: int, b: int)
    requires 0 <= a <= b && forall x :: a <= x < b ==> x !in objs
    ensures LiveBytes(objs, b) == LiveBytes(objs, a)
    decreases b
  {
    if a < b { NoObjectBetween(objs, a, b - 1); }
  }

  /** The number of chunks below offset n. */
  ghost function ChunksBelow(chunks: set<int>, n: int): nat
    decreases n
  {
    if n <= 0 then 0 else ChunksBelow(chunks, n - 1) + if n - 1 in chunks then 1 else 0
  }

  lemma {:induction false} NoChunkBetween(chunks: set<int>, a: int, b: int)
    requires 0 <= a <= b && forall x :: a <= x < b ==> x !in chunks
    ensures ChunksBelow(chunks, b) == ChunksBelow(chunks, a)
    decreases b
  {
    if a < b { NoChunkBetween(chunks, a, b - 1); }
  }

  lemma {:induction false} SameBelow(chunks: set<int>, chunks': set<int>, n: int)
    requires forall x :: 0 <= x < n ==> (x in chunks <==> x in chunks')
    ensures ChunksBelow(chunks, n) == ChunksBelow(chunks', n)
    decreases n
  {
    if n > 0 { SameBelow(chunks, chunks', n - 1); }
  }

  /** Free chunk x is not followed by another free chunk. */
  ghost predicate Alone(hs: nat, m: seq<Cell>, usage: int, x: int) {
    HeadAt(m, x) && (m[x].h.inUse || End(hs, m, x) == usage ||
                     (HeadAt(m, End(hs, m, x)) && m[End(hs, m, x)].h.inUse))
  }

  /** Stepping over chunk c: its bytes count when it is live, and it is one more chunk. */
  lemma StepOver(hs: nat, m: seq<Cell>, usage: int, chunks: set<int>, c: int)
    requires Tiled(hs, m, usage, chunks) && c in chunks
    ensures LiveBytes(Live(hs, m, chunks), End(hs, m, c)) ==
            LiveBytes(Live(hs, m, chunks), c) + (if m[c].h.inUse then m[c].h.size else 0)
    ensures ChunksBelow(chunks, End(hs, m, c)) == ChunksBelow(chunks, c) + 1
  {
    var objs, e := Live(hs, m, chunks), End(hs, m, c);
    forall x | c + 1 <= x < e ensures x !in chunks && x !in objs {}
    NoObjectBetween(objs, c + 1, e);
    NoChunkBetween(chunks, c + 1, e);
  }

  lemma AloneAbsorbed(hs: nat, m: seq<Cell>, usage: int, chunks: set<int>, m': seq<Cell>, chunks': set<int>, c: int, x: int)
    requires Absorbed(hs, m, chunks, m', chunks', c) && x in chunks' && x != c && Alone(hs, m, usage, x)
    requires End(hs, m, x) == usage || End(hs, m, x) in chunks
    ensures Alone(hs, m', usage, x)
  {
    assert Kept(hs, m, m', x);
    var e := End(hs, m, x);
    if !m[x].h.inUse && e != usage {
      assert e in chunks && m[e].h.inUse;
      StillUsed(hs, m, chunks, m', chunks', c, e);
    }
  }

  lemma StillUsed(hs: nat, m: seq<Cell>, chunks: set<int>, m': seq<Cell>, chunks': set<int>, c: int, e: int)
    requires Absorbed(hs, m, chunks, m', chunks', c) && e in chunks && HeadAt(m, e) && m[e].h.inUse
    ensures HeadAt(m', e) && m'[e].h.inUse
  {
    assert e in chunks';
    if e != c { assert Kept(hs, m, m', e); }
  }

  // ----- best fit -----

  /** The first n elements of the list from x on. */
  ghost function Walk(m: seq<Cell>, x: int, n: nat): seq<int>
    decreases n
  {
    if n == 0 || !HeadAt(m, x) then [] else [x] + Walk(m, m[x].h.next, n - 1)
  }

  ghost function SizeAt(m: seq<Cell>, x: int): int {
    if HeadAt(m, x) then m[x].h.size else -1
  }

  /** Among the first n chunks of w, `best` (element k) is the smallest one of at least
      `size` bytes and the first of that size; it is NULL when none is large enough. */
  ghost predicate BestFit(m: seq<Cell>, w: seq<int>, n: nat, size: nat, best: int, k: int)
    requires n <= |w|
  {
    if best == NULL then forall j :: 0 <= j < n ==> SizeAt(m, w[j]) < size
    else
      && 0 <= k < n && w[k] == best && size <= SizeAt(m, best)
      && (forall j :: 0 <= j < n && size <= SizeAt(m, w[j]) ==> SizeAt(m, best) <= SizeAt(m, w[j]))
      && (forall j :: 0 <= j < k && size <= SizeAt(m, w[j]) ==> SizeAt(m, best) < SizeAt(m, w[j]))
  }

  lemma WalkNext(m: seq<Cell>, x: int, n: nat, w: seq<int>, p: nat)
    requires p <= |w| && Walk(m, x, n) == w[p..] && HeadAt(m, x) && n > 0
    ensures p < |w| && w[p] == x && Walk(m, m[x].h.next, n - 1) == w[p + 1..]
  {
    assert w[p..][0] == x && w[p..][1..] == Walk(m, m[x].h.next, n - 1);
  }

  /** The search of get_free_chunk: the best fit among the first CHUNK_SEARCH_MAX chunks
      of the list. */
  method FindBest(m: seq<Cell>, first: int, size: nat, ghost free: set<int>, ghost rank: map<int, int>)
      returns (best: int, ghost k: int)
    requires Linked(m, first, free, rank)
    ensures var w := Walk(m, first, CHUNK_SEARCH_MAX); BestFit(m, w, |w|, size, best, k)
    ensures best == NULL || best in free
  {
    best, k := NULL, 0;
    var i, chunk := CHUNK_SEARCH_MAX, first;
    ghost var w, p := Walk(m, first, CHUNK_SEARCH_MAX), 0;
    while chunk != NULL && i != 0
      invariant chunk == NULL || chunk in free
      invariant best == NULL || best in free
      invariant p <= |w| && Walk(m, chunk, i) == w[p..]
      invariant BestFit(m, w, p, size, best, k)
      decreases i
    {
      assert Node(m, first, free, rank, chunk);
      WalkNext(m, chunk, i, w, p);
      i := i - 1;
      if size <= m[chunk].h.size {
        if best == NULL || m[chunk].h.size < m[best].h.size {
          best, k := chunk, p;
        }
        if m[best].h.size == size {
          assert BestFit(m, w, |w|, size, best, k);
          return;
        }
      }
      p := p + 1;
      chunk := m[chunk].h.next;
    }
    assert p == |w|;
  }

  /** The heap's memory and static variables, and the chunks, free chunks and free-list
      order they stand for. */
  datatype Arena = Arena(mem: seq<Cell>, usage: int, first: int, chunks: set<int>, free: set<int>, rank: map<int, int>)

  ghost function Arenas(hs: nat, a: nat, size: int): iset<Arena>
    requires a > 0
  {
    iset h: Arena |
      && |h.mem| == size && Tiled(hs, h.mem, h.usage, h.chunks) && Aligned(a, h.mem, h.chunks)
      && Linked(h.mem, h.first, h.free, h.rank) && Listed(h.mem, h.chunks, h.free)
  }

  /** From h to h', the chunks behind those of `vs` were coalesced, and nothing else. */
  ghost predicate Coalesced(hs: nat, h: Arena, h': Arena, vs: set<int>) {
    && h'.usage == h.usage && h'.rank == h.rank && h'.free == h.free * h'.chunks
    && Survivors(h.chunks, h.free, vs, h'.chunks)
    && forall x :: x in h'.chunks && x !in vs ==> Kept(hs, h.mem, h'.mem, x)
  }

  /** Absorbing up to the next chunk in use, at e, absorbs exactly the free chunks before it. */
  lemma SurvivorsUpTo(chunks: set<int>, free: set<int>, chunks': set<int>, o: int, e: int)
    requires o < e && chunks' <= chunks && (forall x :: x in chunks && x !in chunks' ==> o < x < e && x in free)
    requires forall x :: x in chunks' ==> x <= o || e <= x
    requires (e in chunks && e !in free) || (forall x :: x in chunks ==> x < e)
    ensures Survivors(chunks, free, {o}, chunks')
  {
    forall x | x in chunks ensures x in chunks' <==> !Shadows(chunks, free, o, x) {
      if x !in chunks' {
        forall y | y in chunks && o < y <= x ensures y in free { assert y !in chunks'; }
      } else if o < x {
        assert e in chunks && e <= x;
      }
    }
    assert forall x :: Shadowed(chunks, free, {o}, x) <==> Shadows(chunks, free, o, x);
  }

  lemma AbsorbedSurvivors(hs: nat, h: Arena, h': Arena, o: int)
    requires Tiled(hs, h.mem, h.usage, h.chunks) && Listed(h.mem, h.chunks, h.free)
    requires Tiled(hs, h'.mem, h'.usage, h'.chunks) && h'.usage == h.usage
    requires Absorbed(hs, h.mem, h.chunks, h'.mem, h'.chunks, o)
    requires var e := End(hs, h'.mem, o); e == h.usage || (e in h.chunks && h.mem[e].h.inUse)
    ensures Survivors(h.chunks, h.free, {o}, h'.chunks)
  {
    SurvivorsUpTo(h.chunks, h.free, h'.chunks, o, End(hs, h'.mem, o));
  }

  lemma AbsorbedFree(hs: nat, h: Arena, h': Arena, o: int)
    requires Listed(h.mem, h.chunks, h.free) && Listed(h'.mem, h'.chunks, h'.free)
    requires Absorbed(hs, h.mem, h.chunks, h'.mem, h'.chunks, o)
    ensures h'.free == h.free * h'.chunks
  {
    forall x | x in h'.chunks ensures x in h'.free <==> x in h.free {
      if x != o { assert Kept(hs, h.mem, h'.mem, x); }
    }
  }

  lemma CoalescedBehind(hs: nat, h: Arena, h': Arena, o: int)
    requires Tiled(hs, h.mem, h.usage, h.chunks) && Listed(h.mem, h.chunks, h.free)
    requires Tiled(hs, h'.mem, h'.usage, h'.chunks) && Listed(h'.mem, h'.chunks, h'.free)
    requires h'.usage == h.usage && h'.rank == h.rank && Absorbed(hs, h.mem, h.chunks, h'.mem, h'.chunks, o)
    requires var e := End(hs, h'.mem, o); e == h.usage || (e in h'.chunks && h'.mem[e].h.inUse)
    ensures Coalesced(hs, h, h', {o})
  {
    AbsorbedFree(hs, h, h', o);
    AbsorbedSurvivors(hs, h, h', o);
  }

  lemma CoalescedMore(hs: nat, h: Arena, vs: set<int>, h1: Arena, c: int, h2: Arena)
    requires Coalesced(hs, h, h1, vs) && Coalesced(hs, h1, h2, {c})
    ensures Coalesced(hs, h, h2, vs + {c})
  {
    Compose(h.chunks, h.free, vs, h1.chunks, c, h2.chunks);
    forall x | x in h2.chunks && x !in vs + {c} ensures Kept(hs, h.mem, h2.mem, x) {
      assert Kept(hs, h.mem, h1.mem, x) && Kept(hs, h1.mem, h2.mem, x);
    }
  }

  /** Where defrag_chunks, which started from h0, stands: the chunks behind the visited ones
      were coalesced, the visited chunks still on the list are not followed by a free one,
      and the others on the list are `chunk` and what comes after it. */
  ghost predicate Defragmented(hs: nat, h0: Arena, h: Arena, visited: set<int>, chunk: int) {
    && Coalesced(hs, h0, h, visited) && Sweeping(h0.chunks, h0.free, h0.rank, visited, h.chunks)
    && (forall x :: x in visited && x in h.free ==> Alone(hs, h.mem, h.usage, x))
    && Ahead(h.free, h.rank, visited, chunk, NULL)
  }

  ghost function Stages(hs: nat, h0: Arena, visited: set<int>, chunk: int): iset<Arena> {
    iset h: Arena | Defragmented(hs, h0, h, visited, chunk)
  }

  /** The chunks defrag_chunks visits. */
  ghost predicate Visited(h: Arena, visited: set<int>) {
    Visits(h.chunks, h.free, h.rank, CHUNK_SEARCH_MAX, visited)
  }

  /** What defrag_chunks makes of h. */
  ghost predicate Defrags(hs: nat, h: Arena, h': Arena) {
    exists visited :: Visited(h, visited) && Coalesced(hs, h, h', visited)
  }

  lemma DefragStarts(hs: nat, h: Arena)
    requires Tiled(hs, h.mem, h.usage, h.chunks) && Listed(h.mem, h.chunks, h.free) && Linked(h.mem, h.first, h.free, h.rank)
    ensures Defragmented(hs, h, h, {}, h.first)
  {
    NoneAbsorbed(h.chunks, h.free);
    SweepStarts(h.chunks, h.free, h.rank);
    ListStarts(h.mem, h.first, h.free, h.rank, {});
  }

  lemma DefragEnds(hs: nat, h0: Arena, h: Arena, visited: set<int>, chunk: int)
    requires Defragmented(hs, h0, h, visited, chunk) && |visited| <= CHUNK_SEARCH_MAX
    requires chunk == NULL || |visited| == CHUNK_SEARCH_MAX
    ensures Visited(h0, visited)
  {
    SweepEnds(h0.chunks, h0.free, h0.rank, CHUNK_SEARCH_MAX, visited, h.chunks, chunk, NULL);
  }

  /** heapmem_stats has coalesced behind `visited`, the free chunks of h it came to below n. */
  ghost predicate MergedBelow(hs: nat, h: Arena, h': Arena, visited: set<int>, n: int) {
    Coalesced(hs, h, h', visited) && visited <= h.free && AllBelow(h'.free, visited, n)
  }

  ghost predicate AllBelow(free: set<int>, visited: set<int>, n: int) {
    forall x :: x in free && x < n ==> x in visited
  }

  /** MergedBelow, kept folded in the loop. */
  ghost predicate MergedSoFar(hs: nat, h: Arena, h': Arena, visited: set<int>, n: int) {
    forall k :: k == h' ==> MergedBelow(hs, h, k, visited, n)
  }

  lemma MergedStart(hs: nat, h: Arena)
    requires Tiled(hs, h.mem, h.usage, h.chunks) && Listed(h.mem, h.chunks, h.free)
    ensures MergedSoFar(hs, h, h, {}, 0)
  {
    NoneAbsorbed(h.chunks, h.free);
    assert MergedBelow(hs, h, h, {}, 0);
  }

  lemma MergedUsed(hs: nat, h: Arena, h1: Arena, visited: set<int>, c: int)
    requires MergedSoFar(hs, h, h1, visited, c) && Tiled(hs, h1.mem, h1.usage, h1.chunks) && Listed(h1.mem, h1.chunks, h1.free)
    requires c in h1.chunks && h1.mem[c].h.inUse
    ensures MergedSoFar(hs, h, h1, visited, End(hs, h1.mem, c))
  {
    assert MergedBelow(hs, h, h1, visited, c);
    assert MergedBelow(hs, h, h1, visited, End(hs, h1.mem, c));
  }

  lemma MergedFree(hs: nat, h: Arena, h1: Arena, h2: Arena, visited: set<int>, c: int)
    requires MergedSoFar(hs, h, h1, visited, c) && c in h1.free && Coalesced(hs, h1, h2, {c})
    requires Tiled(hs, h2.mem, h2.usage, h2.chunks) && h2.free <= h2.chunks && c in h2.chunks
    ensures MergedSoFar(hs, h, h2, visited + {c}, End(hs, h2.mem, c))
  {
    assert MergedBelow(hs, h, h1, visited, c);
    CoalescedMore(hs, h, visited, h1, c, h2);
    NoneInside(hs, h2, c);
    assert AllBelow(h2.free, visited + {c}, End(hs, h2.mem, c));
    assert MergedBelow(hs, h, h2, visited + {c}, End(hs, h2.mem, c));
  }

  lemma NoneInside(hs: nat, h: Arena, c: int)
    requires Tiled(hs, h.mem, h.usage, h.chunks) && c in h.chunks
    ensures forall x :: x in h.chunks && x < End(hs, h.mem, c) ==> x <= c
  {}

  lemma MergedEnd(hs: nat, a: nat, total: int, h: Arena, h': Arena, visited: set<int>)
    requires MergedSoFar(hs, h, h', visited, h'.usage) && Tiled(hs, h'.mem, h'.usage, h'.chunks) && h'.free <= h'.chunks
    requires h.free <= h.chunks && a > 0 && h' in Arenas(hs, a, total)
    ensures Coalesced(hs, h, h', h.free) && h' in Outcomes(hs, a, total, h, Report, NULL)
  {
    assert MergedBelow(hs, h, h', visited, h'.usage);
    SurvivorsOfAll(h.chunks, h.free, visited, h'.chunks);
  }

  lemma ListStarts(m: seq<Cell>, first: int, free: set<int>, rank: map<int, int>, none: set<int>)
    requires Linked(m, first, free, rank) && |none| == 0
    ensures Ahead(free, rank, none, first, NULL)
  {
    if first != NULL {
      assert Node(m, first, free, rank, first);
      forall x | x in free ensures x in rank && rank[first] <= rank[x] { assert Node(m, first, free, rank, x); }
    } else {
      assert forall x :: x in free ==> x in none;
    }
  }

  /** The list from `chunk` on, after the chunks behind it were absorbed. */
  lemma DefragNext(m: seq<Cell>, first: int, free: set<int>, rank: map<int, int>, chunk: int)
    requires Linked(m, first, free, rank) && chunk in free
    ensures chunk in rank && HeadAt(m, chunk)
    ensures var next := m[chunk].h.next;
            if next == NULL then forall x :: x in free ==> x in rank && rank[x] <= rank[chunk]
            else && next in free && next in rank && rank[chunk] < rank[next]
                 && forall x :: x in free ==> x in rank && (rank[x] <= rank[chunk] || rank[next] <= rank[x])
    ensures forall x :: x in free && x in rank && rank[x] == rank[chunk] ==> x == chunk
  {
    assert Node(m, first, free, rank, chunk);
    forall x | x in free ensures x in rank && (rank[x] == rank[chunk] ==> x == chunk)
      ensures rank[x] <= rank[chunk] || (m[chunk].h.next in rank && rank[m[chunk].h.next] <= rank[x] && m[chunk].h.next in free)
    {
      Successor(m, first, free, rank, chunk, x);
    }
  }

  lemma AheadNext(m: seq<Cell>, first: int, free: set<int>, free': set<int>, rank: map<int, int>, visited: set<int>, chunk: int)
    requires Ahead(free, rank, visited, chunk, NULL) && chunk != NULL && free' <= free && chunk in free'
    requires Linked(m, first, free', rank)
    ensures HeadAt(m, chunk) && Ahead(free', rank, visited + {chunk}, m[chunk].h.next, NULL)
  {
    DefragNext(m, first, free', rank, chunk);
    var next := m[chunk].h.next;
    forall x | x in free' && x !in visited && x != chunk ensures next != NULL && x in rank && rank[next] <= rank[x] {
      assert rank[chunk] <= rank[x] && rank[x] != rank[chunk];
    }
  }

  lemma StillAlone(hs: nat, h: Arena, h': Arena, visited: set<int>, chunk: int)
    requires forall x :: x in visited && x in h.free ==> Alone(hs, h.mem, h.usage, x)
    requires Tiled(hs, h.mem, h.usage, h.chunks) && h.free <= h.chunks && h'.free <= h'.chunks
    requires h'.free <= h.free && h'.usage == h.usage
    requires Absorbed(hs, h.mem, h.chunks, h'.mem, h'.chunks, chunk) && Alone(hs, h'.mem, h'.usage, chunk)
    ensures forall x :: x in visited + {chunk} && x in h'.free ==> Alone(hs, h'.mem, h'.usage, x)
  {
    forall x | x in visited && x in h'.free && x != chunk ensures Alone(hs, h'.mem, h'.usage, x) {
      assert End(hs, h.mem, x) == h.usage || End(hs, h.mem, x) in h.chunks;
      AloneAbsorbed(hs, h.mem, h.usage, h.chunks, h'.mem, h'.chunks, chunk, x);
    }
  }

  lemma SweepVisit(hs: nat, h0: Arena, h: Arena, h': Arena, visited: set<int>, chunk: int)
    requires Defragmented(hs, h0, h, visited, chunk) && chunk != NULL && h0.free <= h0.chunks
    requires Linked(h.mem, h.first, h.free, h.rank) && Coalesced(hs, h, h', {chunk})
    ensures Coalesced(hs, h0, h', visited + {chunk}) && Sweeping(h0.chunks, h0.free, h0.rank, visited + {chunk}, h'.chunks)
  {
    CoalescedMore(hs, h0, visited, h, chunk, h');
    DefragNext(h.mem, h.first, h.free, h.rank, chunk);
    SweepStep(h0.chunks, h0.free, h0.rank, visited, h.chunks, chunk, h'.chunks, NULL);
  }

  lemma DefragStep(hs: nat, h0: Arena, h: Arena, h': Arena, visited: set<int>, chunk: int)
    requires Tiled(hs, h.mem, h.usage, h.chunks) && Linked(h.mem, h.first, h.free, h.rank) && Linked(h'.mem, h'.first, h'.free, h'.rank)
    requires Listed(h.mem, h.chunks, h.free) && Listed(h'.mem, h'.chunks, h'.free) && h0.free <= h0.chunks
    requires h in Stages(hs, h0, visited, chunk) && chunk != NULL && Coalesced(hs, h, h', {chunk})
    requires Absorbed(hs, h.mem, h.chunks, h'.mem, h'.chunks, chunk) && Alone(hs, h'.mem, h'.usage, chunk)
    ensures h' in Stages(hs, h0, visited + {chunk}, h'.mem[chunk].h.next) && |visited + {chunk}| == |visited| + 1
  {
    SweepVisit(hs, h0, h, h', visited, chunk);
    StillAlone(hs, h, h', visited, chunk);
    AheadNext(h'.mem, h'.first, h.free, h'.free, h.rank, visited, chunk);
  }

  lemma OnList(hs: nat, h0: Arena, h: Arena, visited: set<int>, chunk: int)
    requires h in Stages(hs, h0, visited, chunk) && chunk != NULL
    ensures chunk in h.free
  {}

  /** What heapmem_alloc chooses: the best fit, or the end of the used space if none fits,
      or NULL if that has no room. */
  ghost predicate Chosen(hs: nat, total: int, at: Arena, size: nat, chunk: int) {
    || (chunk != NULL && BestOf(at, size, chunk))
    || (BestOf(at, size, NULL) && chunk == if at.usage + hs + size > total then NULL else at.usage)
  }

  /** The heaps that defrag_chunks can make of h. */
  ghost function Defragmentations(hs: nat, a: nat, total: int, h: Arena): iset<Arena>
    requires a > 0
  {
    iset at: Arena | at in Arenas(hs, a, total) && Defrags(hs, h, at)
  }

  /** The defragmented heap in which heapmem_alloc, called in h, chooses `chunk` for `size`. */
  ghost function Choices(hs: nat, a: nat, total: int, h: Arena, size: nat, chunk: int): iset<Arena>
    requires a > 0
  {
    iset at: Arena | at in Defragmentations(hs, a, total, h) && Chosen(hs, total, at, size, chunk)
  }

  /** `best` is the best fit for `size` among the chunks of the list that are searched; NULL
      when none of these is large enough. */
  ghost predicate BestOf(at: Arena, size: nat, best: int) {
    var w := Walk(at.mem, at.first, CHUNK_SEARCH_MAX);
    exists k :: BestFit(at.mem, w, |w|, size, best, k)
  }

  /** The chunks whose data starts at a multiple of the alignment. */
  ghost function AlignedChunks(hs: nat, a: nat): iset<int>
    requires a > 0
  {
    iset chunk: int | DataAligned(hs, a, chunk)
  }

  ghost predicate DataAligned(hs: nat, a: nat, chunk: int) { 0 <= chunk && Multiple(a, chunk + hs) }

  /** The pointer to the data of an allocated chunk. */
  lemma AllocationOf(hs: nat, a: nat, objs: map<int, seq<Cell>>, objs': map<int, seq<Cell>>, chunk: int, aligned: nat, ptr: int, size: nat)
    requires a > 0 && (chunk != NULL ==> chunk in AlignedChunks(hs, a)) && ptr == (if chunk == NULL then NULL else chunk + hs)
    requires objs' in ChunkAllocations(objs, chunk, aligned) && size <= aligned
    ensures objs' in Allocations(objs, ptr, hs, size) && ChunkOf(hs, ptr) == chunk
    ensures ptr != NULL ==> chunk != NULL && chunk in objs' && Multiple(a, ptr)
    ensures IsPointer(hs, ptr)
  {}

  ghost function ChunkAllocations(objs: map<int, seq<Cell>>, chunk: int, size: nat): iset<map<int, seq<Cell>>> {
    Allocations(objs, chunk, 0, size)
  }

  lemma PointerAligned(hs: nat, a: nat, total: int, h: Arena, chunk: int)
    requires a > 0 && Multiple(a, hs) && h in Arenas(hs, a, total) && chunk in Live(hs, h.mem, h.chunks)
    ensures chunk in AlignedChunks(hs, a)
  {
    SumMultiple(a, chunk, hs);
  }

  /** What split_chunk leaves of a chunk of n bytes of which `offset` are needed. */
  function CutSize(hs: nat, a: nat, n: int, offset: nat): int
    requires a > 0
  {
    if Align(a, offset) + hs < n then Align(a, offset) else n
  }

  /** The bytes of the object that heapmem_alloc makes of `chunk`: what is left of a free one
      after the split, or a new chunk of the size asked for. */
  ghost predicate GrantedAt(hs: nat, a: nat, at: Arena, size: nat, chunk: int, objs: map<int, seq<Cell>>) {
    a > 0 && chunk in objs && |objs[chunk]| == if chunk in at.free then CutSize(hs, a, SizeAt(at.mem, chunk), size) else size
  }

  /** GrantedAt, kept folded in the methods that only pass it on. */
  ghost predicate Granted(hs: nat, a: nat, at: Arena, size: nat, chunk: int, objs: map<int, seq<Cell>>) {
    forall c :: c == chunk ==> GrantedAt(hs, a, at, size, c, objs)
  }

  /** What chunk o of h lost is a free chunk, or unused space if o was the last one. */
  ghost predicate Rest(hs: nat, h: Arena, o: int, h': Arena) {
    && HeadAt(h.mem, o) && HeadAt(h'.mem, o)
    && var n := End(hs, h'.mem, o);
       if h'.mem[o].h.size == h.mem[o].h.size then h' == h
       else && Fronted(h.free, h.first, h.rank, n, End(hs, h.mem, o) == h.usage, h'.first, h'.rank)
            && if End(hs, h.mem, o) == h.usage then h'.usage == n && h'.chunks == h.chunks && h'.free == h.free
               else && h'.usage == h.usage && h'.chunks == h.chunks + {n} && h'.free == h.free + {n}
                    && HeadAt(h'.mem, n) && !h'.mem[n].h.inUse && End(hs, h'.mem, n) == End(hs, h.mem, o)
  }

  /** The heaps in which chunk o of h was cut down to `size` bytes and keeps those. */
  ghost function Splits(hs: nat, h: Arena, o: int, size: int): iset<Arena> {
    iset h': Arena |
      && o in h.chunks && Rest(hs, h, o, h') && h'.mem[o].h.inUse && h'.mem[o].h.size == size
      && 0 <= size <= h.mem[o].h.size && End(hs, h.mem, o) <= |h.mem| == |h'.mem|
      && Data(hs, h'.mem, o) <= Data(hs, h.mem, o)
      && forall x :: x in h.chunks && x != o ==> Kept(hs, h.mem, h'.mem, x)
  }

  lemma SplitNone(hs: nat, h: Arena, o: int)
    requires Tiled(hs, h.mem, h.usage, h.chunks) && o in h.chunks && h.mem[o].h.inUse
    ensures h in Splits(hs, h, o, h.mem[o].h.size)
  {}

  lemma SplitArena(hs: nat, a: nat, total: int, h: Arena, o: int, n: int, h': Arena)
    requires a > 0 && h in Arenas(hs, a, total) && Multiple(a, hs) && Multiple(a, n - o - hs)
    requires o in h.chunks && h.mem[o].h.inUse && o + hs <= n && n + hs < End(hs, h.mem, o)
    requires CutAt(hs, h.mem, h.chunks, o, n, h'.mem) && Linked(h'.mem, h'.first, h'.free, h'.rank)
    requires if End(hs, h.mem, o) == h.usage then h'.usage == n && h'.chunks == h.chunks && h'.free == h.free
             else h'.usage == h.usage && h'.chunks == h.chunks + {n} && h'.free == h.free + {n}
    requires Fronted(h.free, h.first, h.rank, n, End(hs, h.mem, o) == h.usage, h'.first, h'.rank)
    ensures h' in Arenas(hs, a, total) && h' in Splits(hs, h, o, n - o - hs)
  {
    SplitDone(hs, h.mem, h.usage, h.chunks, h.free, o, n, h'.mem, h'.chunks, h'.free, h'.usage);
    SplitAligned(hs, a, h.mem, h.chunks, o, n, h'.mem, h'.chunks);
  }

  lemma SplitLive(hs: nat, h: Arena, o: int, size: int, h': Arena)
    requires InMemory(hs, h.mem, h.chunks) && InMemory(hs, h'.mem, h'.chunks) && h' in Splits(hs, h, o, size)
    ensures Live(hs, h'.mem, h'.chunks) - {o} == Live(hs, h.mem, h.chunks) - {o} && o in h'.chunks
  {
    LiveFrame(hs, h.mem, h.chunks, h'.mem, h'.chunks, o);
  }

  /** Shortening an object's chunk keeps the bytes the object needs. */
  lemma SplitMoves(hs: nat, h: Arena, o: int, size: int, h': Arena, offset: nat)
    requires InMemory(hs, h.mem, h.chunks) && InMemory(hs, h'.mem, h'.chunks) && h' in Splits(hs, h, o, size)
    requires h.mem[o].h.inUse && offset <= size
    ensures Live(hs, h'.mem, h'.chunks) in Moves(Live(hs, h.mem, h.chunks), o, o, offset)
    ensures |Live(hs, h'.mem, h'.chunks)[o]| == size
  {
    SplitLive(hs, h, o, size, h');
  }

  /** Chunk o, free in h and taken in h1, was shortened in h'. */
  lemma SplitAdds(hs: nat, h: Arena, o: int, h1: Arena, size: int, h': Arena, offset: nat)
    requires InMemory(hs, h.mem, h.chunks) && InMemory(hs, h1.mem, h1.chunks) && InMemory(hs, h'.mem, h'.chunks)
    requires h1.chunks == h.chunks && o in h.chunks && !h.mem[o].h.inUse && h1.mem[o].h.inUse
    requires forall x :: x in h.chunks && x != o ==> Kept(hs, h.mem, h1.mem, x)
    requires h' in Splits(hs, h1, o, size) && offset <= size
    ensures Added(Live(hs, h.mem, h.chunks), Live(hs, h'.mem, h'.chunks), o, offset)
    ensures |Live(hs, h'.mem, h'.chunks)[o]| == size
  {
    LiveFrame(hs, h.mem, h.chunks, h1.mem, h1.chunks, o);
    SplitLive(hs, h1, o, size, h');
    assert Live(hs, h.mem, h.chunks) - {o} == Live(hs, h.mem, h.chunks);
  }

  /** The chunks behind o are free as far as an object of `size` bytes reaches. */
  ghost predicate RoomBehind(hs: nat, h: Arena, o: int, size: nat) {
    o + hs + size <= h.usage && forall x :: x in h.chunks && o < x < o + hs + size ==> x in h.free
  }

  /** After coalescing behind object o its chunk has `size` bytes exactly when there was room. */
  lemma GrowthDecided(hs: nat, h: Arena, h': Arena, o: int, size: nat)
    requires Tiled(hs, h.mem, h.usage, h.chunks) && Listed(h.mem, h.chunks, h.free) && o in h.chunks && h.mem[o].h.inUse
    requires Tiled(hs, h'.mem, h'.usage, h'.chunks) && Listed(h'.mem, h'.chunks, h'.free)
    requires h' in Absorptions(hs, h, o) && Coalesced(hs, h, h', {o}) && h.mem[o].h.size < size
    requires var e := End(hs, h'.mem, o); e == h'.usage || (e in h'.chunks && h'.mem[e].h.inUse)
    ensures h'.mem[o].h.size >= size <==> RoomBehind(hs, h, o, size)
    ensures Stretched(Live(hs, h.mem, h.chunks), Live(hs, h'.mem, h'.chunks), o)
  {
    LiveAbsorbed(hs, h.mem, h.chunks, h'.mem, h'.chunks, o);
    var e := End(hs, h'.mem, o);
    if h'.mem[o].h.size >= size {
      forall x | x in h.chunks && o < x < o + hs + size ensures x in h.free { assert x !in h'.chunks; }
    } else if e != h.usage {
      assert e in h.chunks && e !in h.free && o < e < o + hs + size;
    }
  }

  /** heapmem_realloc can grow chunk o where it is. */
  ghost predicate Growable(hs: nat, total: int, h: Arena, o: int, size: nat) {
    HeadAt(h.mem, o) && if End(hs, h.mem, o) == h.usage then o + hs + size <= total else RoomBehind(hs, h, o, size)
  }

  /** What a failed attempt to grow chunk o makes of h. */
  ghost predicate Attempted(hs: nat, h: Arena, h': Arena, o: int) {
    HeadAt(h.mem, o) && if End(hs, h.mem, o) == h.usage then h' == h else Coalesced(hs, h, h', {o})
  }

  function ChunkOf(hs: nat, ptr: int): int { if ptr == NULL then NULL else ptr - hs }

  /** Where heapmem_realloc puts chunk o of n bytes that is to have `size`: it stays if that
      is no more or can be had in place, and else goes where heapmem_alloc puts it. */
  ghost predicate Placed(hs: nat, a: nat, total: int, h: Arena, o: int, n: int, size: nat, ptr: int, at: Arena) {
    a > 0 && if size <= n || Growable(hs, total, h, o, size) then ptr == o + hs else Relocated(hs, a, total, h, o, size, ptr, at)
  }

  ghost predicate Relocated(hs: nat, a: nat, total: int, h: Arena, o: int, size: nat, ptr: int, at: Arena) {
    a > 0 && exists mid :: Attempted(hs, h, mid, o) && at in Choices(hs, a, total, mid, Align(a, size), ChunkOf(hs, ptr))
  }

  // ----- what the operations make of the chunks and of the order of the list -----

  ghost predicate SizesKept(m: seq<Cell>, m': seq<Cell>, chunks: set<int>) {
    forall x :: x in chunks ==> SizeAt(m', x) == SizeAt(m, x)
  }

  ghost predicate IsReleased(hs: nat, h: Arena, o: int, h': Arena) {
    && o in h.chunks && HeadAt(h.mem, o) && SizesKept(h.mem, h'.mem, h'.chunks)
    && Fronted(h.free, h.first, h.rank, o, End(hs, h.mem, o) == h.usage, h'.first, h'.rank)
    && if End(hs, h.mem, o) == h.usage then h'.usage == o && h'.chunks == h.chunks - {o} && h'.free == h.free
       else h'.usage == h.usage && h'.chunks == h.chunks && h'.free == h.free + {o}
  }

  /** Chunk o is free: unused space if it was the last one, else the first on the list. */
  ghost function Releases(hs: nat, h: Arena, o: int): iset<Arena> {
    iset h': Arena | IsReleased(hs, h, o, h')
  }

  /** Only bytes of objects changed. */
  ghost function Rewrites(h: Arena): iset<Arena> {
    iset h': Arena | IsRewritten(h, h')
  }

  ghost predicate IsRewritten(h: Arena, h': Arena) { h' == h.(mem := h'.mem) && SizesKept(h.mem, h'.mem, h.chunks) }

  /** Chunk o is off the list. */
  ghost predicate IsUnlisted(h: Arena, o: int, h': Arena) {
    && h'.usage == h.usage && h'.chunks == h.chunks && h'.rank == h.rank && h'.free == h.free - {o}
    && SizesKept(h.mem, h'.mem, h.chunks)
  }

  ghost function Unlistings(h: Arena, o: int): iset<Arena> {
    iset h': Arena | IsUnlisted(h, o, h')
  }

  lemma TakeUnlists(hs: nat, a: nat, total: int, h: Arena, o: int, h': Arena)
    requires h'.usage == h.usage && h'.chunks == h.chunks && h'.rank == h.rank && h'.free == h.free - {o}
    requires LinksOnly(h.mem, h'.mem, h.free, o) && (forall x :: x in h.chunks ==> HeadAt(h.mem, x))
    ensures h' in Unlistings(h, o)
  {}

  /** A free chunk is taken off the list and split. */
  ghost function Takings(hs: nat, a: nat, total: int, h: Arena, o: int, size: nat): iset<Arena>
    requires a > 0
  {
    iset h': Arena | IsTaken(hs, a, total, h, o, size, h')
  }

  ghost predicate IsTaken(hs: nat, a: nat, total: int, h: Arena, o: int, size: nat, h': Arena)
    requires a > 0
  {
    exists h1 :: h1 in Unlistings(h, o) && h1 in Arenas(hs, a, total) && h' in Splits(hs, h1, o, CutSize(hs, a, SizeAt(h.mem, o), size))
  }

  ghost predicate IsExtended(hs: nat, h: Arena, size: nat, h': Arena) {
    && h'.usage == h.usage + hs + size && h'.chunks == h.chunks + {h.usage} && h'.free == h.free
    && h'.first == h.first && h'.rank == h.rank && SizesKept(h.mem, h'.mem, h.chunks) && SizeAt(h'.mem, h.usage) == size
  }

  /** There is a new last chunk. */
  ghost function Extensions(hs: nat, h: Arena, size: nat): iset<Arena> {
    iset h': Arena | IsExtended(hs, h, size, h')
  }

  /** What heapmem_alloc makes of the defragmented heap when it uses `chunk`. */
  ghost function Allotments(hs: nat, a: nat, total: int, at: Arena, size: nat, chunk: int): iset<Arena>
    requires a > 0
  {
    if chunk == NULL then iset{at}
    else if chunk in at.free then Takings(hs, a, total, at, chunk, size)
    else Extensions(hs, at, size)
  }

  ghost predicate IsStretched(hs: nat, h: Arena, o: int, size: nat, h': Arena) {
    && h'.usage == o + hs + size && h'.chunks == h.chunks && h'.free == h.free && h'.first == h.first && h'.rank == h.rank
    && SizesKept(h.mem, h'.mem, h.chunks - {o}) && SizeAt(h'.mem, o) == size
  }

  /** Growing in place: the last chunk is longer, or another one has absorbed free chunks
      and given back what is too much. */
  ghost function Growths(hs: nat, a: nat, total: int, h: Arena, o: int, size: nat): iset<Arena>
    requires a > 0 && HeadAt(h.mem, o)
  {
    if End(hs, h.mem, o) == h.usage then iset h': Arena | IsStretched(hs, h, o, size, h')
    else iset h': Arena | IsExpanded(hs, a, total, h, o, size, h')
  }

  ghost predicate Grown(hs: nat, a: nat, total: int, h: Arena, o: int, size: nat, h': Arena) {
    a > 0 && HeadAt(h.mem, o) && h' in Growths(hs, a, total, h, o, size)
  }

  ghost predicate IsExpanded(hs: nat, a: nat, total: int, h: Arena, o: int, size: nat, h': Arena)
    requires a > 0
  {
    exists mid :: mid in Behind(hs, a, total, h, o) && h' in Splits(hs, mid, o, CutSize(hs, a, SizeAt(mid.mem, o), size))
  }

  /** The chunks behind o are coalesced. */
  ghost function Behind(hs: nat, a: nat, total: int, h: Arena, o: int): iset<Arena>
    requires a > 0
  {
    iset h': Arena | h' in Arenas(hs, a, total) && Coalesced(hs, h, h', {o})
  }

  /** What moving chunk o makes of the defragmented heap: a new chunk, a copy, and o free. */
  ghost function Relocations(hs: nat, a: nat, total: int, at: Arena, o: int, size: nat, chunk: int): iset<Arena>
    requires a > 0
  {
    if chunk == NULL then iset{at} else iset h': Arena | IsMoved(hs, a, total, at, o, size, chunk, h')
  }

  ghost predicate IsMoved(hs: nat, a: nat, total: int, at: Arena, o: int, size: nat, chunk: int, h': Arena)
    requires a > 0
  {
    exists h1, h2 ::
      && h1 in Allotments(hs, a, total, at, size, chunk) && h1 in Arenas(hs, a, total)
      && h2 in Rewrites(h1) && h2 in Arenas(hs, a, total) && h' in Releases(hs, h2, o)
  }

  lemma MovedBy(hs: nat, a: nat, total: int, at: Arena, o: int, size: nat, chunk: int, h1: Arena, h2: Arena, h': Arena)
    requires a > 0 && h1 in Allotments(hs, a, total, at, size, chunk) && h1 in Arenas(hs, a, total)
    requires h2 in Rewrites(h1) && h2 in Arenas(hs, a, total) && h' in Releases(hs, h2, o) && chunk != NULL
    ensures h' in Relocations(hs, a, total, at, o, size, chunk)
  {
    assert IsMoved(hs, a, total, at, o, size, chunk, h');
  }

  lemma BestChosen(hs: nat, a: nat, total: int, h: Arena, at: Arena, size: nat, chunk: int, objs: map<int, seq<Cell>>)
    requires a > 0 && at in Defragmentations(hs, a, total, h) && BestOf(at, size, chunk) && chunk != NULL
    requires chunk in at.free && chunk in objs && |objs[chunk]| == CutSize(hs, a, SizeAt(at.mem, chunk), size)
    ensures at in Choices(hs, a, total, h, size, chunk) && Granted(hs, a, at, size, chunk, objs)
  {
    assert GrantedAt(hs, a, at, size, chunk, objs);
  }

  lemma NewChosen(hs: nat, a: nat, total: int, h: Arena, at: Arena, size: nat, chunk: int, h': Arena, objs: map<int, seq<Cell>>)
    requires a > 0 && at in Defragmentations(hs, a, total, h) && BestOf(at, size, NULL)
    requires if at.usage + hs + size > total then chunk == NULL && h' == at
             else chunk == at.usage && chunk != NULL && chunk !in at.free && h' in Extensions(hs, at, size)
                  && chunk in objs && |objs[chunk]| == size
    ensures at in Choices(hs, a, total, h, size, chunk) && h' in Allotments(hs, a, total, at, size, chunk)
    ensures chunk != NULL ==> Granted(hs, a, at, size, chunk, objs)
  {
    assert chunk != NULL ==> GrantedAt(hs, a, at, size, chunk, objs);
  }

  /** What heapmem_realloc makes of chunk o of n bytes that is to have `size`. */
  ghost function Resizings(hs: nat, a: nat, total: int, h: Arena, o: int, n: int, size: nat, ptr: int, at: Arena): iset<Arena>
    requires a > 0
  {
    if size <= n then Splits(hs, h, o, CutSize(hs, a, n, size))
    else if Growable(hs, total, h, o, size) then Growths(hs, a, total, h, o, size)
    else Relocations(hs, a, total, at, o, Align(a, size), ChunkOf(hs, ptr))
  }

  // ----- requests -----

  datatype Request = AllocRequest(size: nat) | FreeRequest(ptr: int) | ReallocRequest(ptr: int, size: nat) | Write | Report

  /** A pointer is NULL or points behind a header. */
  predicate IsPointer(hs: nat, ptr: int) { ptr == NULL || ptr >= hs }

  /** heapmem_alloc; ServesAllocation is the same, kept folded. */
  ghost predicate AllocationServes(hs: nat, a: nat, total: int, h: Arena, size: nat, ret: int, h': Arena) {
    a > 0 && IsPointer(hs, ret) && exists at :: AllocatedVia(hs, a, total, h, at, Align(a, size), ChunkOf(hs, ret), h')
  }

  ghost predicate ServesAllocation(hs: nat, a: nat, total: int, h: Arena, size: nat, ret: int, h': Arena) {
    forall k :: k == h' ==> AllocationServes(hs, a, total, h, size, ret, k)
  }

  ghost predicate AllocatedVia(hs: nat, a: nat, total: int, h: Arena, at: Arena, size: nat, chunk: int, h': Arena)
    requires a > 0
  {
    at in Choices(hs, a, total, h, size, chunk) && h' in Allotments(hs, a, total, at, size, chunk)
  }

  /** heapmem_realloc of an object to a size that is not 0; ServesResize is the same, kept
      folded. */
  ghost predicate ResizeServes(hs: nat, a: nat, total: int, h: Arena, o: int, size: nat, ret: int, h': Arena) {
    && a > 0 && IsPointer(hs, ret) && LiveAt(h.mem, h.chunks, o) && SizeAt(h.mem, o) >= 0
    && exists at :: ResizedVia(hs, a, total, h, o, SizeAt(h.mem, o), Align(a, size), ret, at, h')
  }

  ghost predicate ServesResize(hs: nat, a: nat, total: int, h: Arena, o: int, size: nat, ret: int, h': Arena) {
    forall k :: k == h' ==> ResizeServes(hs, a, total, h, o, size, ret, k)
  }

  ghost predicate ResizedVia(hs: nat, a: nat, total: int, h: Arena, o: int, n: int, size: nat, ret: int, at: Arena, h': Arena)
    requires a > 0
  {
    Placed(hs, a, total, h, o, n, size, ret, at) && h' in Resizings(hs, a, total, h, o, n, size, ret, at)
  }

  /** heapmem_realloc; ServesRealloc is the same, kept folded. */
  ghost predicate ReallocServes(hs: nat, a: nat, total: int, h: Arena, ptr: int, size: nat, ret: int, h': Arena) {
    if ptr == NULL then ServesAllocation(hs, a, total, h, size, ret, h')
    else if size == 0 then ret == NULL && LiveAt(h.mem, h.chunks, ptr - hs) && h' in Releases(hs, h, ptr - hs)
    else ServesResize(hs, a, total, h, ptr - hs, size, ret, h')
  }

  ghost predicate ServesRealloc(hs: nat, a: nat, total: int, h: Arena, ptr: int, size: nat, ret: int, h': Arena) {
    forall k :: k == h' ==> ReallocServes(hs, a, total, h, ptr, size, ret, k)
  }

  lemma ReallocByAlloc(hs: nat, a: nat, total: int, h: Arena, size: nat, ret: int, h': Arena)
    requires ServesAllocation(hs, a, total, h, size, ret, h')
    ensures ServesRealloc(hs, a, total, h, NULL, size, ret, h')
  {
    assert ReallocServes(hs, a, total, h, NULL, size, ret, h');
  }

  lemma ReallocByFree(hs: nat, a: nat, total: int, h: Arena, ptr: int, h': Arena)
    requires ptr != NULL && LiveAt(h.mem, h.chunks, ptr - hs) && h' in Releases(hs, h, ptr - hs)
    ensures ServesRealloc(hs, a, total, h, ptr, 0, NULL, h')
  {
    assert ReallocServes(hs, a, total, h, ptr, 0, NULL, h');
  }

  lemma ReallocByResize(hs: nat, a: nat, total: int, h: Arena, ptr: int, size: nat, ret: int, h': Arena)
    requires ptr != NULL && size > 0 && ServesResize(hs, a, total, h, ptr - hs, size, ret, h')
    ensures ServesRealloc(hs, a, total, h, ptr, size, ret, h')
  {
    assert ReallocServes(hs, a, total, h, ptr, size, ret, h');
  }

  /** The heap serves a request with the answer `ret` and becomes h'. */
  ghost predicate Served(hs: nat, a: nat, total: int, h: Arena, r: Request, ret: int, h': Arena) {
    match r
    case AllocRequest(size) => ServesAllocation(hs, a, total, h, size, ret, h')
    case FreeRequest(ptr) =>
      ret == NULL && if ptr == NULL then h' == h else LiveAt(h.mem, h.chunks, ptr - hs) && h' in Releases(hs, h, ptr - hs)
    case ReallocRequest(ptr, size) => ServesRealloc(hs, a, total, h, ptr, size, ret, h')
    case Write => ret == NULL && h' in Rewrites(h)
    case Report => ret == NULL && Coalesced(hs, h, h', h.free)
  }

  /** The heaps that serving r with the answer `ret` can lead to. */
  ghost function Outcomes(hs: nat, a: nat, total: int, h: Arena, r: Request, ret: int): iset<Arena>
    requires a > 0
  {
    iset h': Arena | h' in Arenas(hs, a, total) && Served(hs, a, total, h, r, ret, h')
  }

  lemma AllocationServed(hs: nat, a: nat, total: int, h: Arena, at: Arena, size: nat, ret: int, h': Arena)
    requires a > 0 && h' in Arenas(hs, a, total) && IsPointer(hs, ret)
    requires at in Choices(hs, a, total, h, Align(a, size), ChunkOf(hs, ret))
    requires h' in Allotments(hs, a, total, at, Align(a, size), ChunkOf(hs, ret))
    ensures h' in Outcomes(hs, a, total, h, AllocRequest(size), ret) && ServesAllocation(hs, a, total, h, size, ret, h')
  {
    assert AllocatedVia(hs, a, total, h, at, Align(a, size), ChunkOf(hs, ret), h');
    assert AllocationServes(hs, a, total, h, size, ret, h');
  }

  lemma ReleaseServed(hs: nat, a: nat, total: int, h: Arena, ptr: int, h': Arena)
    requires a > 0 && h' in Arenas(hs, a, total) && ptr != NULL && LiveAt(h.mem, h.chunks, ptr - hs) && h' in Releases(hs, h, ptr - hs)
    ensures h' in Outcomes(hs, a, total, h, FreeRequest(ptr), NULL)
  {}

  lemma ReallocServed(hs: nat, a: nat, total: int, h: Arena, ptr: int, size: nat, ret: int, h': Arena)
    requires a > 0 && h' in Arenas(hs, a, total) && ServesRealloc(hs, a, total, h, ptr, size, ret, h')
    ensures h' in Outcomes(hs, a, total, h, ReallocRequest(ptr, size), ret)
  {}

  lemma ResizeServed(hs: nat, a: nat, total: int, h: Arena, o: int, n: int, size: nat, ret: int, at: Arena, h': Arena)
    requires a > 0 && IsPointer(hs, ret) && LiveAt(h.mem, h.chunks, o) && n == SizeAt(h.mem, o) >= 0
    requires Placed(hs, a, total, h, o, n, Align(a, size), ret, at) && h' in Resizings(hs, a, total, h, o, n, Align(a, size), ret, at)
    ensures ServesResize(hs, a, total, h, o, size, ret, h')
  {
    assert ResizedVia(hs, a, total, h, o, n, Align(a, size), ret, at, h');
    assert ResizeServes(hs, a, total, h, o, size, ret, h');
  }

  /** The heap, and the objects its clients hold. */
  datatype Snapshot = Snapshot(heap: Arena, objs: map<int, seq<Cell>>)

  ghost predicate Sound(s: Snapshot, hs: nat, a: nat, total: int) {
    a > 0 && Multiple(a, hs) && s.heap in Arenas(hs, a, total) && s.objs == Live(hs, s.heap.mem, s.heap.chunks)
  }

  /** The objects after the first n bytes of o were copied to q. */
  ghost function Pasted(objs: map<int, seq<Cell>>, q: int, o: int, n: nat): map<int, seq<Cell>>
    requires o in objs && q in objs && n <= |objs[o]| && n <= |objs[q]|
  {
    objs[q := objs[o][..n] + objs[q][n..]]
  }

  lemma CopyArena(hs: nat, a: nat, total: int, h: Arena, q: int, o: int, n: nat, h': Arena)
    requires a > 0 && h in Arenas(hs, a, total) && LiveAt(h.mem, h.chunks, q) && LiveAt(h.mem, h.chunks, o) && q != o
    requires n <= h.mem[q].h.size && n <= h.mem[o].h.size && h'.mem in Copies(h.mem, q + hs, o + hs, n)
    requires h' == h.(mem := h'.mem)
    ensures h' in Arenas(hs, a, total) && Live(hs, h'.mem, h'.chunks) == Pasted(Live(hs, h.mem, h.chunks), q, o, n)
    ensures h' in Rewrites(h)
  {
    CopyDone(hs, h.mem, h.usage, h.chunks, h.free, q, o, n, h'.mem);
    LinkedSame(h.mem, h.first, h.free, h.rank, h'.mem);
    AlignedSame(a, h.mem, h.chunks, h'.mem, h.chunks);
  }

  /** Sound, kept folded by the quantifier in proofs that only pass it on. */
  ghost predicate Folded(hs: nat, a: nat, total: int, h: Arena, objs: map<int, seq<Cell>>) {
    a > 0 && forall s :: s == Snapshot(h, objs) ==> Sound(s, hs, a, total)
  }

  lemma CopyRanges(hs: nat, a: nat, total: int, h: Arena, objs: map<int, seq<Cell>>, q: int, o: int)
    requires Folded(hs, a, total, h, objs) && q in objs && o in objs && |objs[o]| <= |objs[q]|
    ensures HeadAt(h.mem, o) && h.mem[o].h.size == |objs[o]|
    ensures 0 <= q + hs && q + hs + |objs[o]| <= |h.mem| && 0 <= o + hs && o + hs + |objs[o]| <= |h.mem|
  {
    assert Sound(Snapshot(h, objs), hs, a, total);
  }

  lemma CopySound(hs: nat, a: nat, total: int, h: Arena, objs: map<int, seq<Cell>>, q: int, o: int, n: nat, h': Arena)
    requires Folded(hs, a, total, h, objs) && q in objs && o in objs && q != o && n <= |objs[o]| && n <= |objs[q]|
    requires h'.mem in Copies(h.mem, q + hs, o + hs, n) && h' == h.(mem := h'.mem)
    ensures Folded(hs, a, total, h', Pasted(objs, q, o, n)) && h' in Rewrites(h)
  {
    assert Sound(Snapshot(h, objs), hs, a, total);
    CopyArena(hs, a, total, h, q, o, n, h');
  }

  lemma GrowArena(hs: nat, a: nat, total: int, h: Arena, o: int, size: nat)
    requires a > 0 && h in Arenas(hs, a, total) && o in h.chunks && h.mem[o].h.inUse && End(hs, h.mem, o) == h.usage
    requires Multiple(a, size) && h.mem[o].h.size < size && o + hs + size <= total
    ensures h.(mem := h.mem[o := Head(h.mem[o].h.(size := size))], usage := o + hs + size) in Arenas(hs, a, total)
  {
    var m' := h.mem[o := Head(h.mem[o].h.(size := size))];
    GrowDone(hs, h.mem, h.usage, h.chunks, h.free, o, size, m');
    LinkedSame(h.mem, h.first, h.free, h.rank, m');
    AlignedGrown(a, h.mem, h.chunks, o, size, m');
  }

  /** Chunk o has `size` bytes. */
  function WithSize(m: seq<Cell>, o: int, size: nat): seq<Cell>
    requires HeadAt(m, o)
  {
    m[o := Head(m[o].h.(size := size))]
  }

  lemma GrowBoth(hs: nat, a: nat, total: int, h: Arena, o: int, size: nat, h': Arena)
    requires a > 0 && h in Arenas(hs, a, total) && o in h.chunks && h.mem[o].h.inUse && End(hs, h.mem, o) == h.usage
    requires Multiple(a, size) && h.mem[o].h.size < size && o + hs + size <= total
    requires h' == h.(mem := WithSize(h.mem, o, size), usage := o + hs + size)
    ensures h' in Arenas(hs, a, total) && Live(hs, h'.mem, h'.chunks) in Moves(Live(hs, h.mem, h.chunks), o, o, size)
    ensures |Live(hs, h'.mem, h'.chunks)[o]| == size && h' in Growths(hs, a, total, h, o, size)
  {
    GrowArena(hs, a, total, h, o, size);
    GrowMoves(hs, h.mem, h.usage, h.chunks, o, size, h'.mem);
  }

  /** The heaps in which chunk o of h has absorbed free chunks that followed it. */
  ghost function Absorptions(hs: nat, h: Arena, o: int): iset<Arena> {
    iset h': Arena |
      && h'.usage == h.usage && h'.rank == h.rank && h'.free <= h.free
      && Absorbed(hs, h.mem, h.chunks, h'.mem, h'.chunks, o)
  }

  lemma AbsorbMore(hs: nat, h: Arena, h1: Arena, h2: Arena, o: int)
    requires h1 in Absorptions(hs, h, o) && h2 in Absorptions(hs, h1, o)
    ensures h2 in Absorptions(hs, h, o)
  {
    AbsorbedMore(hs, h.mem, h.chunks, h1.mem, h1.chunks, h2.mem, h2.chunks, o);
  }

  lemma AbsorbNone(hs: nat, h: Arena, o: int)
    requires o in h.chunks && Tiled(hs, h.mem, h.usage, h.chunks)
    ensures h in Absorptions(hs, h, o)
  {}

  /** The size of chunk o includes the chunk n behind it. */
  function Enlarged(hs: nat, m: seq<Cell>, o: int, n: int): seq<Cell>
    requires HeadAt(m, o) && HeadAt(m, n)
  {
    m[o := Head(m[o].h.(size := m[o].h.size + hs + m[n].h.size))]
  }

  /** Chunk o absorbed the free chunk n behind it, which was taken off the list. */
  lemma MergeArena(hs: nat, a: nat, total: int, h: Arena, o: int, n: int, m1: seq<Cell>, h': Arena)
    requires a > 0 && Multiple(a, hs) && h in Arenas(hs, a, total)
    requires o in h.chunks && n == End(hs, h.mem, o) && n in h.chunks && n in h.free
    requires m1 == Enlarged(hs, h.mem, o, n)
    requires LinksOnly(m1, h'.mem, h.free, n) && h'.mem[n].h.inUse && Linked(h'.mem, h'.first, h'.free, h'.rank)
    requires h'.usage == h.usage && h'.chunks == h.chunks - {n} && h'.free == h.free - {n} && h'.rank == h.rank
    ensures h' in Arenas(hs, a, total) && h' in Absorptions(hs, h, o)
    ensures HeadAt(h'.mem, n) && HeadAt(h'.mem, o) && End(hs, h'.mem, n) == End(hs, h'.mem, o) && n < End(hs, h'.mem, n)
    ensures End(hs, h'.mem, o) == h.usage || End(hs, h'.mem, o) in h'.chunks
  {
    UnitedByLinks(hs, h.mem, h.usage, h.chunks, h.free, o, n, m1, h'.mem);
    MergeDone(hs, h.mem, h.usage, h.chunks, h.free, o, n, h'.mem);
    MergedAligned(hs, a, h.mem, h.chunks, o, n, h'.mem);
  }

  class Heap {
    const headerSize: nat
    const alignment: nat
    const arenaSize: nat
    var mem: seq<Cell>
    var usage: int
    var freeList: int
    ghost var chunks: set<int>
    ghost var free: set<int>
    ghost var rank: map<int, int>
    ghost var objects: map<int, seq<Cell>>

    ghost predicate Valid()
      reads this
    {
      && alignment > 0 && Multiple(alignment, headerSize)
      && View() in Arenas(headerSize, alignment, arenaSize)
    }

    ghost function View(): Arena
      reads this
    {
      Arena(mem, usage, freeList, chunks, free, rank)
    }

    ghost function Objects(): map<int, seq<Cell>>
      requires Valid()
      reads this
    {
      Live(headerSize, mem, chunks)
    }

    constructor (arena: seq<Cell>, headerSize: nat, alignment: nat)
      requires headerSize > 0 && alignment > 0 && Multiple(alignment, headerSize)
      ensures Valid() && Objects() == map[]
      ensures this.headerSize == headerSize && this.alignment == alignment && arenaSize == |arena|
    {
      this.headerSize, this.alignment, arenaSize := headerSize, alignment, |arena|;
      mem, usage, freeList := arena, 0, NULL;
      chunks, free, rank, objects := {}, {}, map[], map[];
    }

    /** The first writes to the fields of a chunk_t at o. */
    method WriteHeader(o: int, h: Header)
      requires 0 <= o && o + headerSize <= |mem| && headerSize > 0
      modifies this`mem
      ensures Overwritten(headerSize, old(mem), o, h, mem)
    {
      var m := mem;
      mem := seq(|m|, i requires 0 <= i < |m| =>
        if i == o then Head(h) else if o < i < o + headerSize then Pad else m[i]);
    }

    /** free_chunk: give the last chunk back to the unused space, put any other chunk at
        the front of the list. */
    method FreeChunk(o: int)
      requires Linked(mem, freeList, free, rank)
      requires HeadAt(mem, o) && o !in free
      modifies this`mem, this`usage, this`freeList, this`free, this`rank
      ensures Linked(mem, freeList, free, rank)
      ensures LinksOnly(old(mem), mem, old(free) + {o}, o) && HeadAt(mem, o) && !mem[o].h.inUse
      ensures if End(headerSize, old(mem), o) == old(usage)
              then usage == o && free == old(free)
              else usage == old(usage) && free == old(free) + {o}
      ensures Fronted(old(free), old(freeList), old(rank), o, End(headerSize, old(mem), o) == old(usage), freeList, rank)
    {
      ghost var m := mem;
      mem := mem[o := Head(mem[o].h.(inUse := false))];
      if End(headerSize, mem, o) == usage {
        usage := usage - (headerSize + mem[o].h.size);
        forall x | x in free ensures Node(mem, freeList, free, rank, x) {
          assert Node(m, freeList, free, rank, x);
        }
      } else {
        mem := mem[o := Head(mem[o].h.(prev := NULL, next := freeList))];
        if freeList != NULL {
          mem := mem[freeList := Head(mem[freeList].h.(prev := o))];
          assert Node(m, freeList, free, rank, freeList);
        }
        Pushed(m, freeList, free, rank, o, mem);
        rank := rank[o := if freeList == NULL then 0 else rank[freeList] - 1];
        freeList, free := o, free + {o};
      }
    }

    /** allocate_chunk: take the chunk off the list, wherever it is on it. */
    method AllocateChunk(o: int)
      requires Linked(mem, freeList, free, rank) && o in free
      modifies this`mem, this`freeList, this`free
      ensures free == old(free) - {o}
      ensures Linked(mem, freeList, free, rank)
      ensures LinksOnly(old(mem), mem, old(free), o) && HeadAt(mem, o) && mem[o].h.inUse
    {
      ghost var m, f, first := mem, free, freeList;
      assert Node(m, first, f, rank, o);
      mem := mem[o := Head(mem[o].h.(inUse := true))];
      if o == freeList {
        freeList := mem[o].h.next;
        if freeList != NULL {
          mem := mem[freeList := Head(mem[freeList].h.(prev := NULL))];
        }
      } else {
        var p := mem[o].h.prev;
        assert Node(m, first, f, rank, p);
        mem := mem[p := Head(mem[p].h.(next := mem[o].h.next))];
      }
      var n := mem[o].h.next;
      if n != NULL {
        mem := mem[n := Head(mem[n].h.(prev := mem[o].h.prev))];
      }
      Removed(m, first, f, rank, o, mem);
      free := free - {o};
    }

    /** The branch of split_chunk: a header is written inside chunk o, the new chunk is
        freed, then chunk o is shortened. */
    method CutChunk(o: int, size: int)
      requires Valid() && o in chunks && mem[o].h.inUse && 0 <= size && size + headerSize < mem[o].h.size
      modifies this`mem, this`usage, this`freeList, this`free, this`rank
      ensures Linked(mem, freeList, free, rank)
      ensures CutAt(headerSize, old(mem), chunks, o, o + headerSize + size, mem)
      ensures if End(headerSize, old(mem), o) == old(usage)
              then usage == o + headerSize + size && free == old(free)
              else usage == old(usage) && free == old(free) + {o + headerSize + size}
      ensures Fronted(old(free), old(freeList), old(rank), o + headerSize + size, End(headerSize, old(mem), o) == old(usage), freeList, rank)
    {
      ghost var m, f := mem, free;
      var n := o + headerSize + size;
      WriteHeader(n, Header(NULL, NULL, mem[o].h.size - headerSize - size, false));
      ghost var m1 := mem;
      InsideChunk(headerSize, m, usage, chunks, o, n);
      LinkedSame(m, freeList, f, rank, m1);
      FreeChunk(n);
      ghost var m2 := mem;
      mem := mem[o := Head(mem[o].h.(size := size, next := NULL, prev := NULL))];
      LinkedSame(m2, freeList, free, rank, mem);
      CutDone(headerSize, m, usage, chunks, f, o, n, m1, m2, mem);
    }

    /** split_chunk: keep the first `offset` bytes of an allocated chunk, rounded up, and
        free the rest if it can hold more than a header. */
    method SplitChunk(o: int, offset: nat)
      requires Valid() && o in chunks && mem[o].h.inUse && offset <= mem[o].h.size
      modifies this
      ensures Valid() && View() in Splits(headerSize, old(View()), o, CutSize(headerSize, alignment, old(mem[o].h.size), offset))
    {
      var size := Align(alignment, offset);
      if size + headerSize < mem[o].h.size {
        SplitAt(o, size);
      } else {
        SplitNone(headerSize, View(), o);
      }
    }

    method SplitAt(o: int, size: nat)
      requires Valid() && o in chunks && mem[o].h.inUse && size + headerSize < mem[o].h.size && Multiple(alignment, size)
      modifies this
      ensures Valid() && View() in Splits(headerSize, old(View()), o, size)
    {
      ghost var h, n := View(), o + headerSize + size;
      CutChunk(o, size);
      if usage == h.usage { chunks := chunks + {n}; }
      SplitArena(headerSize, alignment, arenaSize, h, o, n, View());
    }

    /** coalesce_chunks: absorb the free chunks that follow chunk o in memory. */
    method CoalesceChunks(o: int)
      requires Valid() && o in chunks
      modifies this
      ensures Valid() && View() in Absorptions(headerSize, old(View()), o)
      ensures Coalesced(headerSize, old(View()), View(), {o})
      ensures HeadAt(mem, o)
      ensures End(headerSize, mem, o) == usage || (End(headerSize, mem, o) in chunks && mem[End(headerSize, mem, o)].h.inUse)
    {
      var next := End(headerSize, mem, o);
      assert End(headerSize, mem, o) <= usage;
      ghost var h := View();
      AbsorbNone(headerSize, h, o);
      while next < usage && !mem[next].h.inUse
        invariant Valid() && View() in Absorptions(headerSize, h, o)
        invariant next == End(headerSize, mem, o) && (next == usage || next in chunks)
        decreases usage - next
      {
        ghost var h1 := View();
        next := AbsorbNext(o, next);
        AbsorbMore(headerSize, h, h1, View(), o);
      }
      CoalescedBehind(headerSize, h, View(), o);
    }

    method AbsorbNext(o: int, next: int) returns (after: int)
      requires Valid() && o in chunks && next in chunks && next == End(headerSize, mem, o) && !mem[next].h.inUse
      modifies this
      ensures Valid() && View() in Absorptions(headerSize, old(View()), o) && usage == old(usage) && next < after
      ensures HeadAt(mem, o) && after == End(headerSize, mem, o) && (after == usage || after in chunks)
    {
      ghost var h := View();
      assert h in Arenas(headerSize, alignment, arenaSize);
      ghost var m := Unite(o, next);
      MergeArena(headerSize, alignment, arenaSize, h, o, next, m, View().(chunks := chunks - {next}));
      chunks := chunks - {next};
      after := End(headerSize, mem, next);
    }

    /** The size of the next chunk is added to chunk o, and the next chunk is unlinked. */
    method Unite(o: int, next: int) returns (ghost m: seq<Cell>)
      requires Linked(mem, freeList, free, rank) && HeadAt(mem, o) && next in free
      modifies this`mem, this`freeList, this`free
      ensures free == old(free) - {next} && Linked(mem, freeList, free, rank)
      ensures m == Enlarged(headerSize, old(mem), o, next)
      ensures LinksOnly(m, mem, old(free), next) && HeadAt(mem, next) && mem[next].h.inUse
    {
      mem := Enlarged(headerSize, mem, o, next);
      m := mem;
      LinkedSame(old(mem), freeList, free, rank, m);
      AllocateChunk(next);
    }

    /** defrag_chunks: coalesce behind the chunks that the walk of CHUNK_SEARCH_MAX steps
        along the list comes to.  Those still on the list are then not followed by a free
        chunk. */
    method DefragChunks() returns (ghost visited: set<int>)
      requires Valid()
      modifies this
      ensures Valid() && Objects() == old(Objects())
      ensures Visited(old(View()), visited) && Coalesced(headerSize, old(View()), View(), visited)
      ensures forall x :: x in visited && x in free ==> Alone(headerSize, mem, usage, x)
    {
      var i, chunk := CHUNK_SEARCH_MAX, freeList;
      visited := {};
      ghost var h := View();
      DefragStarts(headerSize, h);
      while chunk != NULL && i != 0
        invariant Valid() && Objects() == old(Objects())
        invariant 0 <= i && |visited| == CHUNK_SEARCH_MAX - i
        invariant View() in Stages(headerSize, h, visited, chunk)
        decreases i
      {
        i := i - 1;
        visited, chunk := DefragOne(chunk, visited, h);
      }
      DefragEnds(headerSize, h, View(), visited, chunk);
    }

    method DefragOne(chunk: int, ghost visited: set<int>, ghost h: Arena) returns (ghost visited': set<int>, next: int)
      requires Valid() && chunk != NULL && h.free <= h.chunks
      requires View() in Stages(headerSize, h, visited, chunk)
      modifies this
      ensures Valid() && Objects() == old(Objects())
      ensures |visited'| == |visited| + 1
      ensures View() in Stages(headerSize, h, visited', next)
    {
      ghost var h1 := View();
      OnList(headerSize, h, h1, visited, chunk);
      CoalesceChunks(chunk);
      LiveAbsorbed(headerSize, h1.mem, h1.chunks, mem, chunks, chunk);
      visited' := visited + {chunk};
      next := mem[chunk].h.next;
      DefragStep(headerSize, h, h1, View(), visited, chunk);
    }

    /** The end of get_free_chunk: take chunk o off the list and split it. */
    method TakeChunk(o: int, size: nat)
      requires Valid() && o in free && size <= mem[o].h.size
      modifies this
      ensures Valid() && Added(old(Objects()), Objects(), o, size)
      ensures |Objects()[o]| == CutSize(headerSize, alignment, old(mem[o].h.size), size)
      ensures View() in Takings(headerSize, alignment, arenaSize, old(View()), o, size)
    {
      ghost var h := View();
      AllocateChunk(o);
      TakeDone(headerSize, h.mem, usage, chunks, h.free, o, mem);
      AlignedSame(alignment, h.mem, chunks, mem, chunks);
      ghost var h1 := View();
      TakeUnlists(headerSize, alignment, arenaSize, h, o, h1);
      SplitChunk(o, size);
      SplitAdds(headerSize, h, o, h1, CutSize(headerSize, alignment, h.mem[o].h.size, size), View(), size);
    }

    /** get_free_chunk: the best fit among the searched chunks of the defragmented heap `at`;
        none exactly when none of them is large enough, and then `at` is the heap. */
    method GetFreeChunk(size: nat) returns (best: int, ghost at: Arena)
      requires Valid()
      modifies this
      ensures Valid() && at in Defragmentations(headerSize, alignment, arenaSize, old(View()))
      ensures BestOf(at, size, best)
      ensures best == NULL ==> at == View() && Objects() == old(Objects())
      ensures best != NULL ==> Added(old(Objects()), Objects(), best, size)
      ensures View() in Allotments(headerSize, alignment, arenaSize, at, size, best)
      ensures best != NULL ==> best in at.free && |Objects()[best]| == CutSize(headerSize, alignment, SizeAt(at.mem, best), size)
    {
      ghost var visited := DefragChunks();
      at := View();
      ghost var k;
      best, k := FindBest(mem, freeList, size, free, rank);
      if best != NULL {
        TakeChunk(best, size);
      }
    }

    /** extend_space. */
    method ExtendSpace(size: nat) returns (oldUsage: int)
      modifies this`usage
      ensures if old(usage) + size > arenaSize then oldUsage == NULL && usage == old(usage)
              else oldUsage == old(usage) && usage == old(usage) + size
    {
      if usage + size > arenaSize { return NULL; }
      oldUsage := usage;
      usage := usage + size;
    }

    /** Everything is in order up to o, where the used space was just extended. */
    ghost predicate ValidUpTo(o: int)
      reads this
    {
      && |mem| == arenaSize && Tiled(headerSize, mem, o, chunks)
      && Aligned(alignment, mem, chunks) && Multiple(alignment, headerSize)
      && Linked(mem, freeList, free, rank) && Listed(mem, chunks, free)
    }

    /** The header of the chunk at the old end of the used space. */
    method InitChunk(o: int, size: nat)
      requires ValidUpTo(o) && usage == o + headerSize + size <= arenaSize && Multiple(alignment, size)
      modifies this`mem, this`chunks
      ensures Valid() && Added(old(Live(headerSize, mem, chunks)), Objects(), o, size) && |Objects()[o]| == size
      ensures chunks == old(chunks) + {o} && SizesKept(old(mem), mem, old(chunks)) && SizeAt(mem, o) == size
    {
      ghost var m, c := mem, chunks;
      WriteHeader(o, Header(NULL, NULL, size, true));
      chunks := chunks + {o};
      InitDone(headerSize, m, o, c, freeList, free, rank, size, mem);
      AlignedExtended(headerSize, alignment, m, o, c, size, mem);
    }

    /** The last resort of heapmem_alloc: a new chunk at the end of the used space. */
    method NewChunk(size: nat) returns (o: int)
      requires Valid() && Multiple(alignment, size)
      modifies this
      ensures Valid()
      ensures if old(usage) + headerSize + size > arenaSize
              then o == NULL && Objects() == old(Objects()) && View() == old(View())
              else o == old(usage) && o != NULL && Added(old(Objects()), Objects(), o, size) && |Objects()[o]| == size
                   && View() in Extensions(headerSize, old(View()), size)
      ensures o !in old(free)
    {
      o := ExtendSpace(headerSize + size);
      if o != NULL {
        InitChunk(o, size);
      }
    }

    /** heapmem_alloc: NULL, with every object as it was, or a pointer to a new aligned
        object that overlaps no other one.  It is the best fit among the searched chunks if
        one is large enough, else at the end of the used space; NULL exactly when there is
        no room there either. */
    method Alloc(size: nat) returns (ptr: int, ghost at: Arena)
      requires Valid()
      modifies this
      ensures Valid() && Objects() in Allocations(old(Objects()), ptr, headerSize, size)
      ensures at in Choices(headerSize, alignment, arenaSize, old(View()), Align(alignment, size), ChunkOf(headerSize, ptr))
      ensures ptr == NULL ==> at == View()
      ensures ptr != NULL ==>
                Multiple(alignment, ptr) && Granted(headerSize, alignment, at, Align(alignment, size), ptr - headerSize, Objects())
      ensures View() in Allotments(headerSize, alignment, arenaSize, at, Align(alignment, size), ChunkOf(headerSize, ptr))
      ensures View() in Outcomes(headerSize, alignment, arenaSize, old(View()), AllocRequest(size), ptr) && IsPointer(headerSize, ptr)
      ensures ServesAllocation(headerSize, alignment, arenaSize, old(View()), size, ptr, View())
    {
      var aligned := Align(alignment, size);
      var chunk;
      chunk, at := AllocAligned(aligned);
      ptr := if chunk == NULL then NULL else chunk + headerSize;
      AllocationOf(headerSize, alignment, old(Objects()), Objects(), chunk, aligned, ptr, size);
      AllocationServed(headerSize, alignment, arenaSize, old(View()), at, size, ptr, View());
    }

    /** The chunk heapmem_alloc uses: a free one, or a new one. */
    method AllocAligned(size: nat) returns (chunk: int, ghost at: Arena)
      requires Valid() && Multiple(alignment, size)
      modifies this
      ensures Valid() && at in Choices(headerSize, alignment, arenaSize, old(View()), size, chunk)
      ensures Objects() in ChunkAllocations(old(Objects()), chunk, size) && (chunk == NULL ==> at == View())
      ensures chunk != NULL ==>
                chunk in AlignedChunks(headerSize, alignment) && Granted(headerSize, alignment, at, size, chunk, Objects())
      ensures View() in Allotments(headerSize, alignment, arenaSize, at, size, chunk)
    {
      chunk, at := FreeOrNew(size);
      if chunk != NULL { PointerAligned(headerSize, alignment, arenaSize, View(), chunk); }
    }

    method FreeOrNew(size: nat) returns (chunk: int, ghost at: Arena)
      requires Valid() && Multiple(alignment, size)
      modifies this
      ensures Valid() && at in Choices(headerSize, alignment, arenaSize, old(View()), size, chunk)
      ensures Objects() in ChunkAllocations(old(Objects()), chunk, size) && (chunk == NULL ==> at == View())
      ensures chunk != NULL ==> Granted(headerSize, alignment, at, size, chunk, Objects())
      ensures View() in Allotments(headerSize, alignment, arenaSize, at, size, chunk)
    {
      chunk, at := GetFreeChunk(size);
      if chunk == NULL {
        chunk := NewChunk(size);
        NewChosen(headerSize, alignment, arenaSize, old(View()), at, size, chunk, View(), Objects());
      } else {
        BestChosen(headerSize, alignment, arenaSize, old(View()), at, size, chunk, Objects());
      }
    }

    /** heapmem_free. */
    method Free(ptr: int)
      requires Valid() && (ptr == NULL || ptr - headerSize in Objects())
      modifies this
      ensures Valid()
      ensures ptr == NULL ==> Objects() == old(Objects())
      ensures ptr != NULL ==> Objects() == old(Objects()) - {ptr - headerSize}
      ensures if ptr == NULL then View() == old(View()) else View() in Releases(headerSize, old(View()), ptr - headerSize)
      ensures View() in Outcomes(headerSize, alignment, arenaSize, old(View()), FreeRequest(ptr), NULL)
    {
      ghost var h := View();
      if ptr != NULL {
        ReleaseChunk(ptr - headerSize);
        ReleaseServed(headerSize, alignment, arenaSize, h, ptr, View());
      }
    }

    method ReleaseChunk(o: int)
      requires Valid() && o in Objects()
      modifies this
      ensures Valid() && Objects() == old(Objects()) - {o}
      ensures View() in Releases(headerSize, old(View()), o)
    {
      ghost var h := View();
      FreeChunk(o);
      if End(headerSize, h.mem, o) == h.usage { chunks := chunks - {o}; }
      ReleaseDone(headerSize, h.mem, h.usage, h.chunks, h.free, o, mem, usage, chunks, free);
      AlignedSame(alignment, h.mem, h.chunks, mem, chunks);
    }

    /** A client stores a byte in its object. */
    method Store(ptr: int, i: nat, b: int)
      requires Valid() && ptr - headerSize in Objects() && i < |Objects()[ptr - headerSize]|
      modifies this`mem
      ensures Valid()
      ensures Objects() == old(Objects())[ptr - headerSize := old(Objects()[ptr - headerSize])[i := Byte(b)]]
      ensures View() in Rewrites(old(View())) && View() in Outcomes(headerSize, alignment, arenaSize, old(View()), Write, NULL)
    {
      var o := ptr - headerSize;
      ghost var m := mem;
      mem := mem[ptr + i := Byte(b)];
      StoreDone(headerSize, m, usage, chunks, free, o, i, b, mem);
      AlignedSame(alignment, m, chunks, mem, chunks);
      LinkedSame(m, freeList, free, rank, mem);
    }

    method Memcpy(dst: int, src: int, n: nat)
      requires 0 <= dst && dst + n <= |mem| && 0 <= src && src + n <= |mem|
      modifies this`mem
      ensures mem in Copies(old(mem), dst, src, n)
    {
      mem := mem[..dst] + mem[src..src + n] + mem[dst + n..];
    }

    /** The branch of heapmem_realloc for the last chunk: grow into the unused space. */
    method GrowLast(o: int, size: nat) returns (done: bool)
      requires Valid() && o in Objects() && End(headerSize, mem, o) == usage
      requires Multiple(alignment, size) && size > mem[o].h.size
      modifies this
      ensures Valid()
      ensures done <==> o + headerSize + size <= arenaSize
      ensures done ==> Objects() in Moves(old(Objects()), o, o, size) && |Objects()[o]| == size
      ensures done ==> View() in Growths(headerSize, alignment, arenaSize, old(View()), o, size)
      ensures !done ==> View() == old(View())
    {
      ghost var h := View();
      var p := ExtendSpace(size - mem[o].h.size);
      done := p != NULL;
      if done { SetSize(o, size, h); }
    }

    /** The chunk takes the bytes by which the used space was extended. */
    method SetSize(o: int, size: nat, ghost h: Arena)
      requires alignment > 0 && Multiple(alignment, headerSize) && h in Arenas(headerSize, alignment, arenaSize)
      requires h == Arena(mem, h.usage, freeList, chunks, free, rank) && o in chunks && mem[o].h.inUse
      requires End(headerSize, mem, o) == h.usage && mem[o].h.size < size && Multiple(alignment, size)
      requires usage == o + headerSize + size <= arenaSize
      modifies this`mem
      ensures Valid() && Objects() in Moves(Live(headerSize, h.mem, h.chunks), o, o, size) && |Objects()[o]| == size
      ensures View() in Growths(headerSize, alignment, arenaSize, h, o, size)
    {
      mem := WithSize(mem, o, size);
      GrowBoth(headerSize, alignment, arenaSize, h, o, size, View());
    }

    /** The branch of heapmem_realloc for the other chunks: absorb what follows, and give
        back what is too much.  If that does not suffice the object keeps its bytes. */
    method GrowInPlace(o: int, size: nat) returns (done: bool)
      requires Valid() && o in Objects() && size > mem[o].h.size
      modifies this
      ensures Valid()
      ensures done <==> RoomBehind(headerSize, old(View()), o, size)
      ensures done ==> Objects() in Moves(old(Objects()), o, o, size)
      ensures done ==> IsExpanded(headerSize, alignment, arenaSize, old(View()), o, size, View())
      ensures !done ==> Coalesced(headerSize, old(View()), View(), {o})
      ensures !done ==> Stretched(old(Objects()), Objects(), o) && |Objects()[o]| < size
    {
      ghost var h := View();
      CoalesceChunks(o);
      done := mem[o].h.size >= size;
      GrowthDecided(headerSize, h, View(), o, size);
      if done {
        ghost var objs, mid, h1 := old(Objects()), Objects(), View();
        assert h1 in Behind(headerSize, alignment, arenaSize, h, o);
        Shrink(o, size);
        MovedVia(objs, mid, Objects(), o, o, size);
      }
    }

    /** Splitting an object's chunk keeps the bytes it needs. */
    method Shrink(o: int, size: nat)
      requires Valid() && o in Objects() && size <= mem[o].h.size
      modifies this
      ensures Valid() && Objects() in Moves(old(Objects()), o, o, size)
      ensures |Objects()[o]| == CutSize(headerSize, alignment, old(mem[o].h.size), size)
      ensures View() in Splits(headerSize, old(View()), o, CutSize(headerSize, alignment, old(mem[o].h.size), size))
    {
      ghost var h := View();
      SplitChunk(o, size);
      SplitMoves(headerSize, h, o, CutSize(headerSize, alignment, h.mem[o].h.size, size), View(), size);
    }

    /** Growing in place, whichever way applies. */
    method Grow(o: int, size: nat) returns (done: bool)
      requires Valid() && o in Objects() && Multiple(alignment, size) && size > mem[o].h.size
      modifies this
      ensures Valid()
      ensures done <==> Growable(headerSize, arenaSize, old(View()), o, size)
      ensures done ==> Objects() in Moves(old(Objects()), o, o, size)
      ensures done ==> View() in Growths(headerSize, alignment, arenaSize, old(View()), o, size)
      ensures !done ==> Attempted(headerSize, old(View()), View(), o)
      ensures !done ==> Stretched(old(Objects()), Objects(), o) && |Objects()[o]| < size
    {
      if End(headerSize, mem, o) == usage {
        done := GrowLast(o, size);
      } else {
        done := GrowInPlace(o, size);
      }
    }

    // ----- heapmem_realloc, in terms of the objects -----

    /** Valid(), and `objects` is what clients hold, folded for the methods below, which only
        combine calls. */
    ghost predicate Ready()
      reads this
    {
      Folded(headerSize, alignment, arenaSize, View(), objects)
    }

    /** heapmem_alloc. */
    method AllocObject(size: nat) returns (ptr: int, ghost at: Arena)
      requires Ready()
      modifies this
      ensures Ready()
      ensures objects in Allocations(old(objects), ptr, headerSize, size)
      ensures at in Choices(headerSize, alignment, arenaSize, old(View()), Align(alignment, size), ChunkOf(headerSize, ptr))
      ensures ptr == NULL ==> at == View()
      ensures View() in Allotments(headerSize, alignment, arenaSize, at, Align(alignment, size), ChunkOf(headerSize, ptr))
      ensures ServesAllocation(headerSize, alignment, arenaSize, old(View()), size, ptr, View()) && IsPointer(headerSize, ptr)
    {
      assert Sound(Snapshot(View(), objects), headerSize, alignment, arenaSize);
      ptr, at := Alloc(size);
      objects := Objects();
    }

    /** free_chunk of an object. */
    method FreeObject(o: int)
      requires Ready() && o in objects
      modifies this
      ensures Ready() && objects == old(objects) - {o}
      ensures View() in Releases(headerSize, old(View()), o) && LiveAt(old(mem), old(chunks), o)
    {
      assert Sound(Snapshot(View(), objects), headerSize, alignment, arenaSize);
      ReleaseChunk(o);
      objects := Objects();
    }

    /** memcpy of the whole of object o to the start of object q. */
    method CopyObject(q: int, o: int)
      requires Ready() && o in objects && q in objects && q != o && |objects[o]| <= |objects[q]|
      modifies this
      ensures Ready() && objects == Pasted(old(objects), q, o, |old(objects)[o]|)
      ensures View() in Rewrites(old(View()))
    {
      ghost var h, objs := View(), objects;
      CopyRanges(headerSize, alignment, arenaSize, h, objs, q, o);
      Memcpy(q + headerSize, o + headerSize, mem[o].h.size);
      objects := Pasted(objs, q, o, |objs[o]|);
      CopySound(headerSize, alignment, arenaSize, h, objs, q, o, |objs[o]|, View());
    }

    /** The size an object has. */
    method SizeOf(o: int) returns (n: nat)
      requires Ready() && o in objects
      ensures n == |objects[o]| == SizeAt(mem, o) && LiveAt(mem, chunks, o)
    {
      assert Sound(Snapshot(View(), objects), headerSize, alignment, arenaSize);
      n := mem[o].h.size;
    }

    method GrowObject(o: int, size: nat) returns (done: bool)
      requires Ready() && o in objects && Multiple(alignment, size) && size > |objects[o]|
      modifies this
      ensures Ready()
      ensures done <==> Growable(headerSize, arenaSize, old(View()), o, size)
      ensures done ==> objects in Moves(old(objects), o, o, size)
      ensures done ==> Grown(headerSize, alignment, arenaSize, old(View()), o, size, View())
      ensures !done ==> Attempted(headerSize, old(View()), View(), o)
      ensures !done ==> Stretched(old(objects), objects, o) && |objects[o]| < size
    {
      assert Sound(Snapshot(View(), objects), headerSize, alignment, arenaSize);
      done := Grow(o, size);
      objects := Objects();
    }

    method ShrinkObject(o: int, size: nat)
      requires Ready() && o in objects && size <= |objects[o]|
      modifies this
      ensures Ready() && objects in Moves(old(objects), o, o, size)
      ensures |objects[o]| == CutSize(headerSize, alignment, |old(objects)[o]|, size)
      ensures View() in Splits(headerSize, old(View()), o, CutSize(headerSize, alignment, |old(objects)[o]|, size))
    {
      assert Sound(Snapshot(View(), objects), headerSize, alignment, arenaSize);
      Shrink(o, size);
      objects := Objects();
    }

    /** The end of heapmem_realloc: allocate elsewhere, copy, free the old chunk. */
    method Relocate(o: int, size: nat, ghost objs: map<int, seq<Cell>>) returns (ptr: int, ghost at: Arena)
      requires Ready() && Stretched(objs, objects, o) && |objects[o]| < size
      modifies this
      ensures Ready() && Resized(objs, objects, o, ptr, headerSize, size)
      ensures at in Choices(headerSize, alignment, arenaSize, old(View()), Align(alignment, size), ChunkOf(headerSize, ptr))
      ensures (ptr == NULL ==> at == View()) && IsPointer(headerSize, ptr)
      ensures View() in Relocations(headerSize, alignment, arenaSize, at, o, Align(alignment, size), ChunkOf(headerSize, ptr))
    {
      ghost var mid := objects;
      ptr, at := AllocObject(size);
      ghost var h1 := View();
      ReadyArena();
      if ptr != NULL {
        var q := ptr - headerSize;
        ghost var objs1 := objects;
        OffsetsInRange(q);
        AddedKeeps(mid, objs1, q, size, o);
        CopyObject(q, o);
        ghost var objs2, h2 := objects, View();
        ReadyArena();
        FreeObject(o);
        MovedBy(headerSize, alignment, arenaSize, at, o, Align(alignment, size), ChunkOf(headerSize, ptr), h1, h2, View());
        MovedByCopy(mid, objs1, objs2, o, q, |mid[o]|, size);
        MovedVia(objs, mid, objects, o, q, size);
      }
    }

    /** heapmem_realloc of an object to a size that is not 0. */
    method Resize(o: int, size: nat) returns (ptr: int, ghost at: Arena)
      requires Ready() && o in objects && Multiple(alignment, size)
      modifies this
      ensures Ready() && Resized(old(objects), objects, o, ptr, headerSize, size)
      ensures Placed(headerSize, alignment, arenaSize, old(View()), o, |old(objects)[o]|, size, ptr, at)
      ensures View() in Resizings(headerSize, alignment, arenaSize, old(View()), o, |old(objects)[o]|, size, ptr, at)
      ensures (ptr == NULL ==> at == View()) && IsPointer(headerSize, ptr)
      ensures LiveAt(old(mem), old(chunks), o) && |old(objects)[o]| == SizeAt(old(mem), o)
      ensures size <= |old(objects)[o]| ==>
                o in objects && |objects[o]| == CutSize(headerSize, alignment, |old(objects)[o]|, size)
    {
      ptr, at := o + headerSize, View();
      OffsetsInRange(o);
      var n := SizeOf(o);
      if size - n <= 0 {
        ShrinkObject(o, size);
      } else {
        var done := GrowObject(o, size);
        if !done {
          ghost var mid := View();
          ptr, at := Relocate(o, size, old(objects));
          assert Attempted(headerSize, old(View()), mid, o);
        }
      }
    }

    lemma ReadyArena()
      requires Ready()
      ensures alignment > 0 && View() in Arenas(headerSize, alignment, arenaSize)
    {
      assert Sound(Snapshot(View(), objects), headerSize, alignment, arenaSize);
    }

    lemma OffsetsInRange(o: int)
      requires Ready() && o in objects
      ensures o >= 0
    {
      assert Sound(Snapshot(View(), objects), headerSize, alignment, arenaSize);
    }

    /** heapmem_realloc: the object keeps its first min(old, new) bytes wherever it ends
        up, and no other object changes; on failure it keeps all of them. */
    method Realloc(ptr: int, size: nat) returns (newptr: int, ghost at: Arena)
      requires Valid() && (ptr == NULL || ptr - headerSize in Objects())
      modifies this
      ensures Valid() && (newptr == NULL && (ptr == NULL || size > 0) ==> at == View())
      ensures ptr == NULL ==>
                && Objects() in Allocations(old(Objects()), newptr, headerSize, size)
                && at in Choices(headerSize, alignment, arenaSize, old(View()), Align(alignment, size), ChunkOf(headerSize, newptr))
                && View() in Allotments(headerSize, alignment, arenaSize, at, Align(alignment, size), ChunkOf(headerSize, newptr))
      ensures ptr != NULL && size == 0 ==> newptr == NULL && Objects() == old(Objects()) - {ptr - headerSize}
                                           && View() in Releases(headerSize, old(View()), ptr - headerSize)
      ensures View() in Outcomes(headerSize, alignment, arenaSize, old(View()), ReallocRequest(ptr, size), newptr)
      ensures ptr != NULL && size > 0 ==>
                var o, n := ptr - headerSize, |old(Objects()[ptr - headerSize])|;
                && Resized(old(Objects()), Objects(), o, newptr, headerSize, size)
                && Placed(headerSize, alignment, arenaSize, old(View()), o, n, Align(alignment, size), newptr, at)
                && View() in Resizings(headerSize, alignment, arenaSize, old(View()), o, n, Align(alignment, size), newptr, at)
                && (Align(alignment, size) <= n ==>
                      o in Objects() && |Objects()[o]| == CutSize(headerSize, alignment, n, Align(alignment, size)))
    {
      objects := Objects();
      ghost var h := View();
      newptr, at := ReallocObject(ptr, size);
      assert Sound(Snapshot(View(), objects), headerSize, alignment, arenaSize);
      ReallocServed(headerSize, alignment, arenaSize, h, ptr, size, newptr, View());
    }

    method ReallocObject(ptr: int, size: nat) returns (newptr: int, ghost at: Arena)
      requires Ready() && (ptr == NULL || ptr - headerSize in objects)
      modifies this
      ensures Ready() && (newptr == NULL && (ptr == NULL || size > 0) ==> at == View())
      ensures ServesRealloc(headerSize, alignment, arenaSize, old(View()), ptr, size, newptr, View())
      ensures ptr == NULL ==>
                && objects in Allocations(old(objects), newptr, headerSize, size)
                && at in Choices(headerSize, alignment, arenaSize, old(View()), Align(alignment, size), ChunkOf(headerSize, newptr))
                && View() in Allotments(headerSize, alignment, arenaSize, at, Align(alignment, size), ChunkOf(headerSize, newptr))
      ensures ptr != NULL && size == 0 ==> newptr == NULL && objects == old(objects) - {ptr - headerSize}
                                           && View() in Releases(headerSize, old(View()), ptr - headerSize)
      ensures ptr != NULL && size > 0 ==>
                var o, n := ptr - headerSize, |old(objects)[ptr - headerSize]|;
                && Resized(old(objects), objects, o, newptr, headerSize, size)
                && Placed(headerSize, alignment, arenaSize, old(View()), o, n, Align(alignment, size), newptr, at)
                && View() in Resizings(headerSize, alignment, arenaSize, old(View()), o, n, Align(alignment, size), newptr, at)
                && (Align(alignment, size) <= n ==>
                      o in objects && |objects[o]| == CutSize(headerSize, alignment, n, Align(alignment, size)))
    {
      ghost var h := View();
      if ptr == NULL {
        newptr, at := AllocObject(size);
        ReallocByAlloc(headerSize, alignment, arenaSize, h, size, newptr, View());
      } else if size == 0 {
        FreeObject(ptr - headerSize);
        newptr, at := NULL, View();
        ReallocByFree(headerSize, alignment, arenaSize, h, ptr, View());
      } else {
        var aligned := AlignSize(size);
        newptr, at := Resize(ptr - headerSize, aligned);
        ResizedLess(old(objects), objects, ptr - headerSize, newptr, headerSize, aligned, size);
        ResizeServed(headerSize, alignment, arenaSize, h, ptr - headerSize, |old(objects)[ptr - headerSize]|, size, newptr, at, View());
        ReallocByResize(headerSize, alignment, arenaSize, h, ptr, size, newptr, View());
      }
    }

    method AlignSize(size: nat) returns (aligned: nat)
      requires Ready()
      ensures alignment > 0 && aligned == Align(alignment, size) && size <= aligned && Multiple(alignment, aligned)
    {
      assert Sound(Snapshot(View(), objects), headerSize, alignment, arenaSize);
      aligned := Align(alignment, size);
    }

    /** Coalescing behind a free chunk, as heapmem_stats needs it. */
    method MergeBehind(c: int)
      requires Valid() && c in chunks && !mem[c].h.inUse
      requires forall x :: x in chunks && x < c ==> Alone(headerSize, mem, usage, x)
      modifies this
      ensures Valid() && Objects() == old(Objects()) && usage == old(usage)
      ensures c in chunks && !mem[c].h.inUse && ChunksBelow(chunks, c) == ChunksBelow(old(chunks), c)
      ensures forall x :: x in chunks && x <= c ==> Alone(headerSize, mem, usage, x)
      ensures Coalesced(headerSize, old(View()), View(), {c})
    {
      ghost var m, k := mem, chunks;
      CoalesceChunks(c);
      LiveAbsorbed(headerSize, m, k, mem, chunks, c);
      SameBelow(k, chunks, c);
      forall x | x in chunks && x < c ensures Alone(headerSize, mem, usage, x) {
        AloneAbsorbed(headerSize, m, usage, k, mem, chunks, c, x);
      }
    }

    /** One chunk of the walk of heapmem_stats: a free one absorbs what follows. */
    method Inspect(chunk: int, ghost h: Arena, ghost visited: set<int>) returns (inUse: bool, ghost visited': set<int>)
      requires Valid() && chunk in chunks && MergedSoFar(headerSize, h, View(), visited, chunk)
      requires forall x :: x in chunks && x < chunk ==> Alone(headerSize, mem, usage, x)
      modifies this
      ensures Valid() && Objects() == old(Objects()) && usage == old(usage)
      ensures chunk in chunks && mem[chunk].h.inUse == inUse && ChunksBelow(chunks, chunk) == ChunksBelow(old(chunks), chunk)
      ensures forall x :: x in chunks && x <= chunk ==> Alone(headerSize, mem, usage, x)
      ensures MergedSoFar(headerSize, h, View(), visited', End(headerSize, mem, chunk))
    {
      ghost var h1 := View();
      inUse, visited' := mem[chunk].h.inUse, visited;
      if inUse {
        MergedUsed(headerSize, h, h1, visited, chunk);
      } else {
        MergeBehind(chunk);
        MergedFree(headerSize, h, h1, View(), visited, chunk);
        visited' := visited + {chunk};
      }
    }

    /** heapmem_stats: walks the chunks, coalescing as it goes.  The reported numbers add up
        to the arena, no object changes, and no two free chunks are left side by side: behind
        all free chunks was coalesced. */
    method Stats() returns (live: int, overhead: int, available: int, footprint: int, count: int)
      requires Valid()
      modifies this
      ensures Valid() && Objects() == old(Objects())
      ensures live + overhead + available == arenaSize && footprint == usage
      ensures live == LiveBytes(Objects(), usage)
      ensures count == ChunksBelow(chunks, usage)
      ensures forall x :: x in chunks ==> Alone(headerSize, mem, usage, x)
      ensures Coalesced(headerSize, old(View()), View(), old(free))
      ensures View() in Outcomes(headerSize, alignment, arenaSize, old(View()), Report, NULL)
    {
      live, overhead, available := 0, 0, 0;
      ghost var n, h, visited: set<int> := 0, View(), {};
      MergedStart(headerSize, h);
      var chunk := 0;
      while chunk < usage
        invariant Valid() && Objects() == old(Objects()) && usage == old(usage)
        invariant 0 <= chunk <= usage && (chunk == usage || chunk in chunks)
        invariant live + overhead + available == chunk
        invariant live == LiveBytes(Objects(), chunk)
        invariant n == ChunksBelow(chunks, chunk) && overhead == headerSize * n
        invariant forall x :: x in chunks && x < chunk ==> Alone(headerSize, mem, usage, x)
        invariant MergedSoFar(headerSize, h, View(), visited, chunk)
        decreases usage - chunk
      {
        var inUse;
        inUse, visited := Inspect(chunk, h, visited);
        if inUse {
          live := live + mem[chunk].h.size;
        } else {
          available := available + mem[chunk].h.size;
        }
        StepOver(headerSize, mem, usage, chunks, chunk);
        MulNext(headerSize, n);
        overhead := overhead + headerSize;
        n := n + 1;
        chunk := End(headerSize, mem, chunk);
      }
      MergedEnd(headerSize, alignment, arenaSize, h, View(), visited);
      available := available + (arenaSize - usage);
      footprint := usage;
      UniqueRemainder(overhead, n, 0, headerSize);
      count := overhead / headerSize;
    }
  }
}
