/** Which chunks defrag_chunks of contiki-ng/os/lib/heapmem.c visits and which ones it
    absorbs, told from the chunks, the free ones and the order of the free list alone. */
module HeapSweep {

  /** Every chunk behind o up to x is free, so coalescing behind o absorbs x. */
  ghost predicate Shadows(chunks: set<int>, free: set<int>, o: int, x: int) {
    o < x && forall y :: y in chunks && o < y <= x ==> y in free
  }

  ghost predicate Shadowed(chunks: set<int>, free: set<int>, vs: set<int>, x: int) {
    exists o :: o in vs && Shadows(chunks, free, o, x)
  }

  /** What coalescing behind the chunks `vs` leaves. */
  ghost predicate Survivors(chunks: set<int>, free: set<int>, vs: set<int>, chunks': set<int>) {
    && chunks' <= chunks
    && forall x :: x in chunks ==> (x in chunks' <==> !Shadowed(chunks, free, vs, x))
  }

  lemma SurvivorsUnique(chunks: set<int>, free: set<int>, vs: set<int>, p: set<int>, q: set<int>)
    requires Survivors(chunks, free, vs, p) && Survivors(chunks, free, vs, q)
    ensures p == q
  {
    forall x: int ensures x in p <==> x in q {
      assert x in chunks ==> (x in p <==> !Shadowed(chunks, free, vs, x));
    }
  }

  lemma NoneAbsorbed(chunks: set<int>, free: set<int>)
    ensures Survivors(chunks, free, {}, chunks)
  {
    assert forall x :: !Shadowed(chunks, free, {}, x);
  }

  /** What c shadows among the survivors, it shadows among all chunks. */
  lemma ShadowsAll(chunks: set<int>, free: set<int>, vs: set<int>, chunks1: set<int>, c: int, x: int)
    requires Survivors(chunks, free, vs, chunks1) && x in chunks1
    ensures Shadows(chunks1, free * chunks1, c, x) <==> Shadows(chunks, free, c, x)
  {
    forall y | y in chunks && y !in chunks1 ensures y in free {
      var o :| o in vs && Shadows(chunks, free, o, y);
    }
  }

  /** Coalescing behind `vs` and then behind c. */
  lemma Compose(chunks: set<int>, free: set<int>, vs: set<int>, chunks1: set<int>, c: int, chunks2: set<int>)
    requires Survivors(chunks, free, vs, chunks1) && Survivors(chunks1, free * chunks1, {c}, chunks2)
    ensures Survivors(chunks, free, vs + {c}, chunks2)
  {
    forall x | x in chunks ensures x in chunks2 <==> !Shadowed(chunks, free, vs + {c}, x) {
      OneMore(chunks, free, vs, c, x);
      if x in chunks1 {
        ShadowsAll(chunks, free, vs, chunks1, c, x);
        assert Shadowed(chunks1, free * chunks1, {c}, x) <==> Shadows(chunks1, free * chunks1, c, x);
      }
    }
  }

  lemma OneMore(chunks: set<int>, free: set<int>, vs: set<int>, c: int, x: int)
    ensures Shadowed(chunks, free, vs + {c}, x) <==> Shadowed(chunks, free, vs, x) || Shadows(chunks, free, c, x)
  {
    if Shadowed(chunks, free, vs, x) {
      var o :| o in vs && Shadows(chunks, free, o, x);
      assert o in vs + {c};
    }
    assert c in vs + {c};
  }

  /** Coalescing behind `vs` is coalescing behind all free chunks when every free chunk that
      is left was among them. */
  lemma SurvivorsOfAll(chunks: set<int>, free: set<int>, vs: set<int>, chunks': set<int>)
    requires Survivors(chunks, free, vs, chunks') && vs <= free <= chunks && forall x :: x in free && x in chunks' ==> x in vs
    ensures Survivors(chunks, free, free, chunks')
  {
    forall x | x in chunks ensures Shadowed(chunks, free, vs, x) <==> Shadowed(chunks, free, free, x) {
      if o :| o in free && Shadows(chunks, free, o, x) {
        if o !in vs {
          assert o in chunks && o !in chunks';
          var v :| v in vs && Shadows(chunks, free, v, o);
          assert Shadows(chunks, free, v, x);
        }
      }
    }
  }

  // ----- the visited chunks -----

  function Place(rank: map<int, int>, x: int): int {
    if x in rank then rank[x] else 0
  }

  /** A chunk of `vs` earlier on the list shadows x. */
  ghost predicate Earlier(chunks: set<int>, free: set<int>, rank: map<int, int>, vs: set<int>, x: int) {
    exists o :: o in vs && Place(rank, o) < Place(rank, x) && Shadows(chunks, free, o, x)
  }

  /** `vs` are the chunks the walk of at most `max` steps along the list comes to: a free
      chunk is visited unless one visited earlier has absorbed it, or the limit is reached
      before it. */
  ghost predicate Visits(chunks: set<int>, free: set<int>, rank: map<int, int>, max: nat, vs: set<int>) {
    && vs <= free && |vs| <= max
    && (forall x :: x in vs ==> !Earlier(chunks, free, rank, vs, x))
    && (forall x :: x in free && x !in vs ==>
          Earlier(chunks, free, rank, vs, x) || (|vs| == max && forall v :: v in vs ==> Place(rank, v) < Place(rank, x)))
  }

  /** The chunks before `chunk` on the list have been dealt with. */
  ghost predicate Ahead(free: set<int>, rank: map<int, int>, visited: set<int>, chunk: int, none: int) {
    if chunk == none then free <= visited
    else && chunk in free && chunk !in visited && chunk in rank
         && (forall x :: x in visited ==> x in rank && rank[x] < rank[chunk])
         && (forall x :: x in free && x !in visited ==> x in rank && rank[chunk] <= rank[x])
  }

  /** What the walk keeps: no visited chunk was absorbed before its visit, and the other
      free chunks are still there or were absorbed by one visited earlier. */
  ghost predicate Sweeping(chunks: set<int>, free: set<int>, rank: map<int, int>, vs: set<int>, chunks1: set<int>) {
    && vs <= free
    && (forall x :: x in vs ==> !Earlier(chunks, free, rank, vs, x))
    && (forall x :: x in free && x !in vs ==> x in chunks1 || Earlier(chunks, free, rank, vs, x))
  }

  lemma SweepStarts(chunks: set<int>, free: set<int>, rank: map<int, int>)
    requires free <= chunks
    ensures Sweeping(chunks, free, rank, {}, chunks)
  {}

  /** One visit. */
  lemma SweepStep(chunks: set<int>, free: set<int>, rank: map<int, int>, vs: set<int>, chunks1: set<int>, c: int, chunks2: set<int>, none: int)
    requires Sweeping(chunks, free, rank, vs, chunks1) && free <= chunks
    requires Survivors(chunks, free, vs, chunks1) && Survivors(chunks1, free * chunks1, {c}, chunks2)
    requires c != none && Ahead(free * chunks1, rank, vs, c, none)
    requires forall x :: x in free * chunks1 && x in rank && rank[x] == rank[c] ==> x == c
    ensures Sweeping(chunks, free, rank, vs + {c}, chunks2)
  {
    forall x | x in vs + {c} ensures !Earlier(chunks, free, rank, vs + {c}, x) {
      NotEarlier(chunks, free, rank, vs, chunks1, c, x, none);
    }
    forall x | x in free && x !in vs + {c} && x !in chunks2 ensures Earlier(chunks, free, rank, vs + {c}, x) {
      if x in chunks1 {
        assert Shadowed(chunks1, free * chunks1, {c}, x);
        ShadowsAll(chunks, free, vs, chunks1, c, x);
        assert c in vs + {c} && Place(rank, c) < Place(rank, x);
      } else {
        var o :| o in vs && Place(rank, o) < Place(rank, x) && Shadows(chunks, free, o, x);
        assert o in vs + {c};
      }
    }
  }

  lemma NotEarlier(chunks: set<int>, free: set<int>, rank: map<int, int>, vs: set<int>, chunks1: set<int>, c: int, x: int, none: int)
    requires Sweeping(chunks, free, rank, vs, chunks1) && free <= chunks && Survivors(chunks, free, vs, chunks1)
    requires c != none && Ahead(free * chunks1, rank, vs, c, none) && x in vs + {c}
    ensures !Earlier(chunks, free, rank, vs + {c}, x)
  {
    forall o | o in vs && Place(rank, o) < Place(rank, x) ensures !Shadows(chunks, free, o, x) {
      assert x !in vs ==> !Shadowed(chunks, free, vs, x);
    }
  }

  /** The walk is over. */
  lemma SweepEnds(chunks: set<int>, free: set<int>, rank: map<int, int>, max: nat, vs: set<int>, chunks1: set<int>, c: int, none: int)
    requires Sweeping(chunks, free, rank, vs, chunks1) && |vs| <= max && (c == none || |vs| == max)
    requires Ahead(free * chunks1, rank, vs, c, none)
    ensures Visits(chunks, free, rank, max, vs)
  {}

  /** The heap decides which chunks are visited. */
  lemma VisitedUnique(chunks: set<int>, free: set<int>, rank: map<int, int>, max: nat, vs: set<int>, ws: set<int>)
    requires Visits(chunks, free, rank, max, vs) && Visits(chunks, free, rank, max, ws)
    ensures vs == ws
  {
    forall x | x in free ensures x in vs <==> x in ws {
      VisitedBoth(chunks, free, rank, max, vs, ws, x, Before(free, rank, x));
    }
  }

  /** The free chunks before x on the list. */
  ghost function Before(free: set<int>, rank: map<int, int>, x: int): set<int> {
    set y | y in free && Place(rank, y) < Place(rank, x)
  }

  lemma {:induction false} VisitedBoth(chunks: set<int>, free: set<int>, rank: map<int, int>, max: nat,
                                       vs: set<int>, ws: set<int>, x: int, before: set<int>)
    requires Visits(chunks, free, rank, max, vs) && Visits(chunks, free, rank, max, ws)
    requires x in free && before == Before(free, rank, x)
    ensures x in vs <==> x in ws
    decreases |before|
  {
    forall y | y in before ensures y in vs <==> y in ws {
      Fewer(free, rank, y, x);
      VisitedBoth(chunks, free, rank, max, vs, ws, y, Before(free, rank, y));
    }
    if x in vs { VisitedToo(chunks, free, rank, max, vs, ws, x); }
    if x in ws { VisitedToo(chunks, free, rank, max, ws, vs, x); }
  }

  lemma Fewer(free: set<int>, rank: map<int, int>, y: int, x: int)
    requires y in Before(free, rank, x)
    ensures |Before(free, rank, y)| < |Before(free, rank, x)|
  {
    var a, b := Before(free, rank, y), Before(free, rank, x);
    assert a < b;
    SmallerSet(a, b);
  }

  lemma SmallerSet(a: set<int>, b: set<int>)
    requires a <= b && a != b
    ensures |a| < |b|
  {
    assert b == a + (b - a);
  }

  lemma VisitedToo(chunks: set<int>, free: set<int>, rank: map<int, int>, max: nat, vs: set<int>, ws: set<int>, x: int)
    requires Visits(chunks, free, rank, max, vs) && Visits(chunks, free, rank, max, ws) && x in vs
    requires forall y :: y in free && Place(rank, y) < Place(rank, x) ==> (y in vs <==> y in ws)
    ensures x in ws
  {
    assert Earlier(chunks, free, rank, ws, x) ==> Earlier(chunks, free, rank, vs, x);
    if |ws| == max && forall y :: y in ws ==> Place(rank, y) < Place(rank, x) {
      forall y: int | y in ws ensures y in vs {
        assert y in free && Place(rank, y) < Place(rank, x);
      }
      SameSize(ws, vs);
    }
  }

  lemma SameSize(a: set<int>, b: set<int>)
    requires a <= b && |b| <= |a|
    ensures a == b
  {
    assert b == a + (b - a);
  }
}
