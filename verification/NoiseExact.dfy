/** When the distributed computation of mpi/main.c is the one a single process would do. */
module NoiseExact {
  import opened Arith
  import opened Shuffle
  import opened ShuffleMatching
  import opened ShuffleResult
  import opened ShuffleOrder
  import opened NoiseSim

  // ----- three ranks or more: the order of arrival -----

  /** One source of the given level on the first cell for each of the first three ranks. */
  ghost function Corner(ranks: nat, v: int, a: int, b: int): seq<seq<Source>>
    requires ranks >= 3
  {
    [[Source(v, 0, 0, 0, 0)], [Source(a, 0, 0, 0, 0)], [Source(b, 0, 0, 0, 0)]] + seq(ranks - 3, _ => [])
  }

  lemma PaintOne(add: Adder, v: int, s: Source, x: int, y: int)
    ensures Paint(add, v, [s], x, y) == if Covers(s, x, y) then add(v, s.level) else v
  {
    var one := [s];
    assert one[..0] == [];
  }

  lemma CornerPaints(add: Adder, cfg: Config, sizeX: nat, worlds: seq<seq<seq<Source>>>, v: int, a: int, b: int, p: nat, g: nat)
    requires cfg.ranks >= 3 && cfg.cells > 0 && sizeX > 0 && ZeroNeutral(add)
    requires |worlds| > 0 && worlds[0] == Corner(cfg.ranks, v, a, b)
    requires forall j :: 0 < j < |worlds| ==> worlds[j] == seq(cfg.ranks, _ => [])
    ensures var value := Painted(add, worlds, cfg.cells, sizeX)(p, g);
            value == if g > 0 || p > 2 then 0 else if p == 0 then v else if p == 1 then a else b
  {
    var world, x, y := WorldAt(worlds, cfg.cells, g), Column(cfg.cells, sizeX, g), Row(cfg.cells, sizeX, g);
    if g < cfg.cells {
      SmallQuotient(g, cfg.cells);
      SmallQuotient(0, sizeX);
      if x == 0 && y == 0 { assert g == sizeX * y + x; }
      if p <= 2 { PaintOne(add, 0, world[p][0], x, y); }
    } else {
      assert g / cfg.cells > 0 by { assert g == cfg.cells * (g / cfg.cells) + g % cfg.cells; }
    }
  }

  lemma SmallQuotient(g: nat, n: nat)
    requires g < n
    ensures g / n == 0 && g % n == g
  {
    UniqueRemainder(g, 0, g, n);
  }

  lemma CornerSequential(add: Adder, ranks: nat, n: nat, v: int, a: int, b: int)
    requires 3 <= n <= ranks && ZeroNeutral(add)
    ensures |Corner(ranks, v, a, b)| == ranks
    ensures Paint(add, 0, Processed(Corner(ranks, v, a, b), n), 0, 0) == add(add(v, a), b)
    decreases n
  {
    var parts := Corner(ranks, v, a, b);
    if n > 3 {
      CornerSequential(add, ranks, n - 1, v, a, b);
      assert Processed(parts, n) == Processed(parts, n - 1);
    } else {
      var one, two := Processed(parts, 1), Processed(parts, 2);
      assert Processed(parts, 0) == [] && one == parts[0];
      PaintOne(add, 0, parts[0][0], 0, 0);
      PaintAppend(add, 0, one, parts[1], 0, 0);
      PaintOne(add, v, parts[1][0], 0, 0);
      PaintAppend(add, 0, two, parts[2], 0, 0);
      PaintOne(add, add(v, a), parts[2][0], 0, 0);
    }
  }

  lemma NoiseNeedsLaw(add: Adder, ranks: nat, sizeX: nat, sizeY: nat, cycles: nat, v: int, a: int, b: int)
    requires ranks >= 3 && sizeX * sizeY > 0 && cycles > 0 && ZeroNeutral(add)
    requires ComputesNoise(add, ranks, sizeX, sizeY, cycles)
    ensures Swaps(add, v, a, b)
  {
    var cfg := Config(ranks, sizeX * sizeY, cycles);
    var worlds := [Corner(ranks, v, a, b)] + seq(cycles - 1, _ => seq(ranks, _ => []));
    var acts, s := CornerRun(add, cfg, sizeX, worlds, v, a, b);
    CornerSequential(add, ranks, ranks, v, a, b);
    assert Simulated(add, worlds, cfg, sizeX, acts, s, 0, 0);
    FirstCell(cfg.cells, sizeX);
  }

  lemma FirstCell(cells: nat, sizeX: nat)
    requires cells > 0
    ensures 0 / cells == 0 && Column(cells, sizeX, 0) == 0 && Row(cells, sizeX, 0) == 0
  {
    SmallQuotient(0, cells);
    if sizeX > 0 { SmallQuotient(0, sizeX); }
  }

  lemma CornerRun(add: Adder, cfg: Config, sizeX: nat, worlds: seq<seq<seq<Source>>>, v: int, a: int, b: int)
      returns (acts: seq<Action>, s: State)
    requires cfg.ranks >= 3 && cfg.cells > 0 && cfg.cycles > 0 && sizeX > 0 && ZeroNeutral(add)
    requires |worlds| > 0 && worlds[0] == Corner(cfg.ranks, v, a, b)
    requires forall j :: 0 < j < |worlds| ==> worlds[j] == seq(cfg.ranks, _ => [])
    ensures Ends(cfg, Painted(add, worlds, cfg.cells, sizeX), acts, s) && |s.noises[0]| > 0
    ensures s.noises[0][0].cell == 0 && Level(add, s.noises[0][0]) == add(add(v, b), a)
  {
    var local := Painted(add, worlds, cfg.cells, sizeX);
    forall p: nat, g: nat
      ensures local(p, g) == if g > 0 || p > 2 then 0 else if p == 0 then v else if p == 1 then a else b
    {
      CornerPaints(add, cfg, sizeX, worlds, v, a, b, p, g);
    }
    WholeCycle(cfg);
    acts, s := OrderedRun(cfg, local, 2, 1, add);
  }

  // ----- three ranks or more: messages of another cycle -----

  /** One source, of the last rank, on the first cell in the second cycle. */
  ghost function Late(ranks: nat, cycles: nat): seq<seq<seq<Source>>>
    requires ranks > 0
  {
    seq(cycles, j requires 0 <= j < cycles =>
      seq(ranks, r requires 0 <= r < ranks => if j == 1 && r == ranks - 1 then [Source(1, 0, 0, 0, 0)] else []))
  }

  /** Square 0 is the one of the first cell of a cycle. */
  lemma OnFirstCell(cells: nat, sizeX: nat, g: nat)
    requires cells > 0 && sizeX > 0
    ensures Column(cells, sizeX, g) == 0 && Row(cells, sizeX, g) == 0 <==> g % cells == 0
  {
    var c := g % cells;
    assert c == sizeX * (c / sizeX) + c % sizeX;
    if c == 0 { SmallQuotient(0, sizeX); }
  }

  lemma SecondCycle(cells: nat, g: nat)
    requires cells > 0
    ensures g / cells == 1 && g % cells == 0 <==> g == cells
  {
    assert g == cells * (g / cells) + g % cells;
    if g == cells { UniqueRemainder(g, 1, 0, cells); }
  }

  lemma LatePaints(add: Adder, cfg: Config, sizeX: nat, p: nat, g: nat)
    requires cfg.ranks > 0 && cfg.cells > 0 && cfg.cycles >= 2 && sizeX > 0 && ZeroNeutral(add)
    ensures Painted(add, Late(cfg.ranks, cfg.cycles), cfg.cells, sizeX)(p, g) ==
            if p == cfg.ranks - 1 && g == cfg.cells then 1 else 0
  {
    OnFirstCell(cfg.cells, sizeX, g);
    SecondCycle(cfg.cells, g);
    LateAt(add, cfg.ranks, cfg.cycles, p, g / cfg.cells, Column(cfg.cells, sizeX, g), Row(cfg.cells, sizeX, g));
  }

  lemma LateAt(add: Adder, ranks: nat, cycles: nat, p: nat, j: nat, x: int, y: int)
    requires ranks > 0 && cycles >= 2 && ZeroNeutral(add)
    ensures (if j < cycles && p < ranks then Paint(add, 0, Late(ranks, cycles)[j][p], x, y) else 0) ==
            if j == 1 && p == ranks - 1 && x == 0 && y == 0 then 1 else 0
  {
    PaintOne(add, 0, Source(1, 0, 0, 0, 0), x, y);
  }

  lemma NoiseNeedsSafe(add: Adder, ranks: nat, sizeX: nat, sizeY: nat, cycles: nat)
    requires ranks > 0 && sizeX > 0 && sizeX * sizeY > 0 && ZeroNeutral(add)
    requires !Config(ranks, sizeX * sizeY, cycles).Safe()
    ensures !ComputesNoise(add, ranks, sizeX, sizeY, cycles)
  {
    var cfg := Config(ranks, sizeX * sizeY, cycles);
    var worlds := Late(ranks, cycles);
    var local := Painted(add, worlds, cfg.cells, sizeX);
    forall p: nat, g: nat ensures local(p, g) == if p == ranks - 1 && g == cfg.cells then 1 else 0 {
      LatePaints(add, cfg, sizeX, p, g);
    }
    var acts, s, b, k := BadRun(cfg, local, add);
    assert Simulated(add, worlds, cfg, sizeX, acts, s, 0, k);
    SmallQuotient(b, cfg.cells);
    NothingPainted(add, WorldAt(worlds, cfg.cells, b), ranks, Column(cfg.cells, sizeX, b), Row(cfg.cells, sizeX, b));
  }

  lemma {:induction false} NothingPainted(add: Adder, parts: seq<seq<Source>>, n: nat, x: int, y: int)
    requires n <= |parts| && forall r :: 0 <= r < n ==> parts[r] == []
    ensures Paint(add, 0, Processed(parts, n), x, y) == 0
  {
    if n > 0 {
      NothingPainted(add, parts, n - 1, x, y);
      assert Processed(parts, n) == Processed(parts, n - 1);
    }
  }

  // ----- one and two ranks -----

  /** Everywhere and always, rank 0 has a source of level v, and rank 1, if there is one,
      sources of levels a and b. */
  ghost function Everywhere(cfg: Config, v: int, a: int, b: int): seq<seq<seq<Source>>> {
    seq(cfg.cycles, _ =>
      [[Source(v, cfg.cells, 0, 0, 0)], [Source(a, cfg.cells, 0, 0, 0), Source(b, cfg.cells, 0, 0, 0)]])
  }

  lemma InGrid(cells: nat, sizeX: nat, g: nat)
    requires cells > 0 && sizeX > 0
    ensures 0 <= Column(cells, sizeX, g) <= cells && 0 <= Row(cells, sizeX, g) <= cells
  {
    QuotientBelow(g % cells, sizeX);
  }

  lemma QuotientBelow(c: nat, d: nat)
    requires d > 0
    ensures 0 <= c / d <= c && 0 <= c % d <= c
  {
    var q, r := c / d, c % d;
    assert c == d * q + r;
    MulMonotone(q, 1, d);
  }

  lemma PaintTwo(add: Adder, s: Source, t: Source, x: int, y: int)
    requires Covers(s, x, y) && Covers(t, x, y) && ZeroNeutral(add)
    ensures Paint(add, 0, [s, t], x, y) == add(s.level, t.level)
  {
    PaintAppend(add, 0, [s], [t], x, y);
    PaintOne(add, 0, s, x, y);
    PaintOne(add, s.level, t, x, y);
    assert [s] + [t] == [s, t];
  }

  lemma EverywherePaints(add: Adder, cfg: Config, sizeX: nat, v: int, a: int, b: int, g: nat)
    requires cfg.cells > 0 && sizeX > 0 && ZeroNeutral(add) && g < cfg.Total()
    ensures var worlds := Everywhere(cfg, v, a, b);
            && Painted(add, worlds, cfg.cells, sizeX)(0, g) == v
            && Painted(add, worlds, cfg.cells, sizeX)(1, g) == add(a, b)
            && Sequential(add, worlds, cfg.cells, sizeX, g) == add(add(v, a), b)
  {
    CycleOf(cfg, g);
    InGrid(cfg.cells, sizeX, g);
    var n := cfg.cells;
    ThreePaint(add, Source(v, n, 0, 0, 0), Source(a, n, 0, 0, 0), Source(b, n, 0, 0, 0), Column(n, sizeX, g), Row(n, sizeX, g));
  }

  lemma ThreePaint(add: Adder, s: Source, t: Source, u: Source, x: int, y: int)
    requires Covers(s, x, y) && Covers(t, x, y) && Covers(u, x, y) && ZeroNeutral(add)
    ensures Paint(add, 0, [s], x, y) == s.level && Paint(add, 0, [t, u], x, y) == add(t.level, u.level)
    ensures Paint(add, 0, Processed([[s], [t, u]], 2), x, y) == add(add(s.level, t.level), u.level)
  {
    var parts := [[s], [t, u]];
    assert Processed(parts, 0) == [] && Processed(parts, 1) == [s] && Processed(parts, 2) == [s] + [t, u];
    PaintOne(add, 0, s, x, y);
    PaintTwo(add, t, u, x, y);
    PaintAppend(add, 0, [s], [t, u], x, y);
    PaintAppend(add, s.level, [t], [u], x, y);
    assert [t] + [u] == [t, u];
    PaintOne(add, s.level, t, x, y);
    PaintOne(add, add(s.level, t.level), u, x, y);
  }

  /** With two ranks, what rank r leaves for its first cell. */
  lemma TwoRankEntry(add: Adder, sizeX: nat, sizeY: nat, cycles: nat, v: int, a: int, b: int, r: nat)
    requires r < 2 && sizeX > 0 && sizeX * sizeY > r && cycles > 0 && ZeroNeutral(add)
    requires ComputesNoise(add, 2, sizeX, sizeY, cycles)
    ensures add(add(v, a), b) == if r == 0 then add(v, add(a, b)) else add(add(a, b), v)
  {
    var cfg := Config(2, sizeX * sizeY, cycles);
    var worlds := Everywhere(cfg, v, a, b);
    var local := Painted(add, worlds, cfg.cells, sizeX);
    InitInv(cfg, local);
    var acts, s := Completes(cfg, local, Init(cfg));
    HasEntry(cfg, local, acts, s, r);
    FewRanks(cfg, local, acts, s, add, r, 0);
    var g := s.noises[r][0].cell;
    EverywherePaints(add, cfg, sizeX, v, a, b, g);
    assert Simulated(add, worlds, cfg, sizeX, acts, s, r, 0);
    TwoFold(add, local, r, g);
  }

  lemma HasEntry(cfg: Config, local: Local, acts: seq<Action>, s: State, r: nat)
    requires cfg.ranks == 2 && r < 2 && cfg.cells > r && cfg.cycles > 0 && Ends(cfg, local, acts, s)
    ensures |s.noises[r]| > 0 && s.noises[r][0].cell < cfg.Total()
  {
    WalkResult(cfg, local, acts, s, r);
    WholeCycle(cfg);
    SmallQuotient(r, cfg.cells);
    OwnedMonotone(cfg, r, r + 1, cfg.Total());
    assert EntryOk(cfg, local, r, 0, s.noises[r][0]);
  }

  lemma TwoFold(add: Adder, local: Local, r: nat, g: nat)
    requires r < 2
    ensures OwnFold(add, local, r, g, 2) == add(local(r, g), local(1 - r, g))
  {
    if r == 0 {
      assert OwnFold(add, local, r, g, 1) == local(0, g);
    } else {
      assert OwnFold(add, local, r, g, 1) == add(OwnFold(add, local, r, g, 0), local(0, g));
    }
  }

  lemma TwoRanksNeed(add: Adder, sizeX: nat, sizeY: nat, cycles: nat)
    requires sizeX > 0 && sizeX * sizeY > 0 && cycles > 0 && ZeroNeutral(add) && ComputesNoise(add, 2, sizeX, sizeY, cycles)
    ensures Associative(add) && (sizeX * sizeY > 1 ==> RightCommutes(add))
  {
    forall a, b, c ensures Groups(add, a, b, c) {
      TwoRankEntry(add, sizeX, sizeY, cycles, a, b, c, 0);
    }
    if sizeX * sizeY > 1 {
      forall a, b ensures add(a, b) == add(b, a) {
        TwoRankEntry(add, sizeX, sizeY, cycles, a, b, 0, 1);
      }
      forall v, a, b ensures Swaps(add, v, a, b) {
        assert Groups(add, v, a, b) && Groups(add, v, b, a);
      }
    }
  }

  /** One rank, or two of which only the first owns cells. */
  lemma FewRanksCompute(add: Adder, worlds: seq<seq<seq<Source>>>, cfg: Config, sizeX: nat, acts: seq<Action>, s: State, r: nat, k: nat)
    requires cfg.cells > 0 && ZeroNeutral(add) && Simulated(add, worlds, cfg, sizeX, acts, s, r, k)
    requires cfg.ranks == 1 || (cfg.ranks == 2 && r == 0 && Associative(add))
    ensures Level(add, s.noises[r][k]) == Sequential(add, worlds, cfg.cells, sizeX, s.noises[r][k].cell)
  {
    var local, g := Painted(add, worlds, cfg.cells, sizeX), s.noises[r][k].cell;
    FewRanks(cfg, local, acts, s, add, r, k);
    WalkResult(cfg, local, acts, s, r);
    assert EntryOk(cfg, local, r, k, s.noises[r][k]);
    CycleOf(cfg, g);
    var world, x, y := WorldAt(worlds, cfg.cells, g), Column(cfg.cells, sizeX, g), Row(cfg.cells, sizeX, g);
    assert Processed(world, 0) == [] && Processed(world, 1) == world[0];
    if cfg.ranks == 2 {
      assert Processed(world, 2) == world[0] + world[1];
      PaintJoin(add, world[0], world[1], x, y);
      TwoFold(add, local, r, g);
    } else {
      assert OwnFold(add, local, r, g, 1) == local(0, g);
    }
  }

  // ----- exactly when -----

  /** What the operator must be like: nothing for one rank; associative for two ranks on one
      cell, which only the first rank owns; else it takes two operands in either order. */
  ghost predicate Lawful(add: Adder, ranks: nat, cells: nat) {
    ranks == 1 || (if ranks == 2 && cells == 1 then Associative(add) else RightCommutes(add))
  }

  lemma LawfulComputes(add: Adder, ranks: nat, sizeX: nat, sizeY: nat, cycles: nat)
    requires ranks > 0 && sizeX > 0 && sizeX * sizeY > 0 && ZeroNeutral(add)
    requires Config(ranks, sizeX * sizeY, cycles).Safe() && Lawful(add, ranks, sizeX * sizeY)
    ensures ComputesNoise(add, ranks, sizeX, sizeY, cycles)
  {
    var cfg := Config(ranks, sizeX * sizeY, cycles);
    forall worlds, acts, s, r: nat, k: nat | Simulated(add, worlds, cfg, sizeX, acts, s, r, k)
      ensures Level(add, s.noises[r][k]) == Sequential(add, worlds, cfg.cells, sizeX, s.noises[r][k].cell)
    {
      if ranks == 1 || (ranks == 2 && cfg.cells == 1) {
        OwnsTheCell(cfg, Painted(add, worlds, cfg.cells, sizeX), acts, s, r, k);
        FewRanksCompute(add, worlds, cfg, sizeX, acts, s, r, k);
      } else {
        DistributedIsSequential(add, worlds, cfg, sizeX, acts, s, r, k);
      }
    }
  }

  /** A single cell is rank 0's. */
  lemma OwnsTheCell(cfg: Config, local: Local, acts: seq<Action>, s: State, r: nat, k: nat)
    requires (cfg.ranks == 1 || (cfg.ranks == 2 && cfg.cells == 1)) && Ends(cfg, local, acts, s) && r < cfg.ranks && k < |s.noises[r]|
    ensures r == 0
  {
    WalkResult(cfg, local, acts, s, r);
    assert EntryOk(cfg, local, r, k, s.noises[r][k]);
  }

  /** For a grid that is not empty: the simulation computes the noise of all processed
      sources in every run if and only if messages match their cells and the operator is
      lawful. */
  lemma SequentialExactlyWhen(add: Adder, ranks: nat, sizeX: nat, sizeY: nat, cycles: nat)
    requires ranks > 0 && sizeX * sizeY > 0 && cycles > 0 && ZeroNeutral(add)
    ensures ComputesNoise(add, ranks, sizeX, sizeY, cycles) <==>
            Config(ranks, sizeX * sizeY, cycles).Safe() && Lawful(add, ranks, sizeX * sizeY)
  {
    var cfg := Config(ranks, sizeX * sizeY, cycles);
    assert sizeX > 0;
    if cfg.Safe() && Lawful(add, ranks, cfg.cells) {
      LawfulComputes(add, ranks, sizeX, sizeY, cycles);
    }
    if !cfg.Safe() {
      NoiseNeedsSafe(add, ranks, sizeX, sizeY, cycles);
    } else if ComputesNoise(add, ranks, sizeX, sizeY, cycles) {
      if ranks == 2 { TwoRanksNeed(add, sizeX, sizeY, cycles); }
      if ranks >= 3 {
        forall v, a, b ensures Swaps(add, v, a, b) {
          NoiseNeedsLaw(add, ranks, sizeX, sizeY, cycles, v, a, b);
        }
      }
    }
  }
}
