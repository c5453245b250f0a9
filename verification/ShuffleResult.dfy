/** What the shuffle leaves in my_noises (mpi/main.c): the reduction of every cell. */
module ShuffleResult {
  import opened Shuffle
  import opened ShuffleMatching

  /** sum_noises is left abstract: it rounds decibels to whole numbers. */
  type Adder = (int, int) -> int

  /** The value left in noise_level after folding the received messages into v in the
      order in which they arrived. */
  function Reduce(add: Adder, v: int, ms: seq<Message>): int {
    if ms == [] then v else add(Reduce(add, v, ms[..|ms| - 1]), ms[|ms| - 1].value)
  }

  /** What an entry of my_noises holds in the end. */
  function Level(add: Adder, e: Entry): int { Reduce(add, e.own, e.operands) }

  /** The schedule-free reference: the level of rank r at cell c, and then those of the
      other ranks below n in rank order. */
  function OwnFold(add: Adder, local: Local, r: nat, c: nat, n: nat): int {
    if n == 0 then local(r, c)
    else if n - 1 == r then OwnFold(add, local, r, c, n - 1)
    else add(OwnFold(add, local, r, c, n - 1), local(n - 1, c))
  }

  predicate Swaps(add: Adder, v: int, a: int, b: int) { add(add(v, a), b) == add(add(v, b), a) }

  /** Two operands in either order: all that independence of the schedule needs. */
  ghost predicate RightCommutes(add: Adder) {
    forall v, a, b :: Swaps(add, v, a, b)
  }

  ghost predicate Commutes(add: Adder) {
    && (forall a, b {:trigger add(a, b)} :: add(a, b) == add(b, a))
    && (forall a, b, c {:trigger add(add(a, b), c)} :: add(add(a, b), c) == add(a, add(b, c)))
  }

  ghost predicate ZeroNeutral(add: Adder) {
    forall a :: add(0, a) == a && add(a, 0) == a
  }

  /** Safety over whole runs: however the ranks were interleaved, when the walk is over a
      rank holds one entry per cell it owns, in walk order, and the operands of each
      entry are its own value and exactly one message from every other rank, all sent
      for that cell; nothing is left in flight. */
  lemma WalkResult(cfg: Config, local: Local, acts: seq<Action>, s: State, r: nat)
    requires cfg.Valid() && cfg.Safe() && Reaches(cfg, local, acts, s)
    requires Finished(cfg, s) && r < cfg.ranks
    ensures |s.noises[r]| == Owned(cfg, r, cfg.Total())
    ensures forall k :: 0 <= k < |s.noises[r]| ==>
              && EntryOk(cfg, local, r, k, s.noises[r][k])
              && forall q :: 0 <= q < cfg.ranks && q != r ==> From(s.noises[r][k].operands, q)
    ensures forall q :: 0 <= q < cfg.ranks ==> s.chan[r][q] == []
  {
    InitExact(cfg, local);
    RunExact(cfg, local, Init(cfg), acts, s);
    assert Entries(cfg, local, s, r);
    forall k | 0 <= k < |s.noises[r]|
      ensures forall q :: 0 <= q < cfg.ranks && q != r ==> From(s.noises[r][k].operands, q)
    {
      var e := s.noises[r][k];
      assert EntryOk(cfg, local, r, k, e);
      AllSenders(cfg, local, r, e.cell, e.operands);
    }
    forall q | 0 <= q < cfg.ranks ensures s.chan[r][q] == [] { Drained(cfg, local, s, r, q); }
  }

  /** An operand may be moved to the end. */
  lemma {:induction false} MoveLast(add: Adder, v: int, ms: seq<Message>, i: nat)
    requires RightCommutes(add) && i < |ms|
    ensures Reduce(add, v, ms) == add(Reduce(add, v, ms[..i] + ms[i + 1..]), ms[i].value)
    decreases |ms|
  {
    var n := |ms| - 1;
    var u := ms[..n];
    if i == n {
      assert ms[..i] + ms[i + 1..] == u;
    } else {
      MoveLast(add, v, u, i);
      var rest := ms[..i] + ms[i + 1..];
      assert rest[..|rest| - 1] == u[..i] + u[i + 1..];
      assert Swaps(add, Reduce(add, v, u[..i] + u[i + 1..]), ms[i].value, ms[n].value);
    }
  }

  /** One message for cell c from every rank below n other than r. */
  ghost predicate Others(local: Local, r: nat, c: nat, n: nat, ms: seq<Message>) {
    && (forall i :: 0 <= i < |ms| ==>
          ms[i].src < n && ms[i].src != r && ms[i] == Message(ms[i].src, c, local(ms[i].src, c)))
    && (forall i, j :: 0 <= i < j < |ms| ==> ms[i].src != ms[j].src)
    && (forall q :: 0 <= q < n && q != r ==> From(ms, q))
  }

  lemma OthersWithout(local: Local, r: nat, c: nat, n: nat, ms: seq<Message>, i: nat)
    requires Others(local, r, c, n, ms) && i < |ms| && ms[i].src == n - 1
    ensures Others(local, r, c, n - 1, ms[..i] + ms[i + 1..])
  {
    var rest := ms[..i] + ms[i + 1..];
    forall j | 0 <= j < |rest| ensures rest[j] == ms[if j < i then j else j + 1] {}
    forall q | 0 <= q < n - 1 && q != r ensures From(rest, q) {
      assert From(ms, q);
      var j :| 0 <= j < |ms| && ms[j].src == q;
      assert rest[if j < i then j else j - 1].src == q;
    }
  }

  /** The order of arrival does not matter: the messages of the other ranks fold to the
      rank-order reference. */
  lemma {:induction false} FoldAnyOrder(add: Adder, local: Local, r: nat, c: nat, n: nat, ms: seq<Message>)
    requires RightCommutes(add) && Others(local, r, c, n, ms)
    ensures Reduce(add, local(r, c), ms) == OwnFold(add, local, r, c, n)
    decreases n
  {
    if n > 0 && n - 1 == r {
      FoldAnyOrder(add, local, r, c, n - 1, ms);
    } else if n > 0 {
      assert From(ms, n - 1);
      var i :| 0 <= i < |ms| && ms[i].src == n - 1;
      OthersWithout(local, r, c, n, ms, i);
      FoldAnyOrder(add, local, r, c, n - 1, ms[..i] + ms[i + 1..]);
      MoveLast(add, local(r, c), ms, i);
    }
  }

  /** Determinism: for such an operator every schedule leaves the same level in every
      entry, the owner's value with those of the other ranks in rank order. */
  lemma ScheduleFree(cfg: Config, local: Local, acts: seq<Action>, s: State, add: Adder, r: nat, k: nat)
    requires cfg.Valid() && cfg.Safe() && Reaches(cfg, local, acts, s)
    requires Finished(cfg, s) && r < cfg.ranks && k < |s.noises[r]|
    requires RightCommutes(add)
    ensures Level(add, s.noises[r][k]) == OwnFold(add, local, r, s.noises[r][k].cell, cfg.ranks)
  {
    WalkResult(cfg, local, acts, s, r);
    var e := s.noises[r][k];
    assert EntryOk(cfg, local, r, k, e);
    FoldAnyOrder(add, local, r, e.cell, cfg.ranks, e.operands);
  }

  // ----- what the law amounts to -----

  /** With 0 neutral, as in sum_noises, the law says commutative and associative. */
  lemma LawIsCommutative(add: Adder)
    requires ZeroNeutral(add)
    ensures RightCommutes(add) <==> Commutes(add)
  {
    if RightCommutes(add) {
      forall a, b ensures add(a, b) == add(b, a) {
        assert Swaps(add, 0, a, b);
      }
      forall a, b, c ensures add(add(a, b), c) == add(a, add(b, c)) {
        assert Swaps(add, b, a, c) && Swaps(add, 0, a, b) && Swaps(add, 0, a, add(b, c));
      }
    }
    if Commutes(add) {
      forall v, a, b ensures Swaps(add, v, a, b) {
        assert add(add(v, a), b) == add(v, add(a, b));
        assert add(add(v, b), a) == add(v, add(b, a));
      }
    }
  }

  lemma Associates(add: Adder, a: int, b: int, c: int)
    requires RightCommutes(add) && ZeroNeutral(add)
    ensures add(add(a, b), c) == add(a, add(b, c)) && add(a, b) == add(b, a)
  {
    LawIsCommutative(add);
  }

  /** The noise of cell c over ranks 0 .. n-1 in rank order, whoever owns the cell. */
  function RankFold(add: Adder, local: Local, c: nat, n: nat): int {
    if n == 0 then 0 else add(RankFold(add, local, c, n - 1), local(n - 1, c))
  }

  lemma {:induction false} OwnerIrrelevant(add: Adder, local: Local, r: nat, c: nat, n: nat)
    requires RightCommutes(add) && ZeroNeutral(add)
    ensures OwnFold(add, local, r, c, n) ==
            if n <= r then add(local(r, c), RankFold(add, local, c, n)) else RankFold(add, local, c, n)
  {
    if n > 0 {
      OwnerIrrelevant(add, local, r, c, n - 1);
      Associates(add, local(r, c), RankFold(add, local, c, n - 1), local(n - 1, c));
    }
  }
}
