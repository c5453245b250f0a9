/** Painting and moving noise sources (mpi/utils/noise_sim.c), and what the distributed
    computation of mpi/main.c adds up to. */
module NoiseSim {
  import opened Arith
  import opened Shuffle
  import opened ShuffleMatching
  import opened ShuffleResult
  import opened ShuffleOrder

  datatype Source = Source(level: int, distance: int, speed: int, x: int, y: int)

  predicate Covers(s: Source, x: int, y: int) {
    s.x - s.distance <= x <= s.x + s.distance && s.y - s.distance <= y <= s.y + s.distance
  }

  /** A source covers the square of its distance around itself. */
  lemma CoversExactly(s: Source, x: int, y: int)
    ensures Covers(s, x, y) <==> Abs(x - s.x) <= s.distance && Abs(y - s.y) <= s.distance
  {}

  function Abs(a: int): int { if a < 0 then -a else a }

  /** The noise of one square metre: the sources that cover it, folded in index order. */
  function Paint(add: Adder, v: int, sources: seq<Source>, x: int, y: int): int {
    if sources == [] then v
    else
      var n := |sources| - 1;
      var u := Paint(add, v, sources[..n], x, y);
      if Covers(sources[n], x, y) then add(u, sources[n].level) else u
  }

  /** compute_noise_sqm: grid[y, x] becomes the fold of the first `count` sources that
      cover it, over what it held before. */
  method ComputeNoise(add: Adder, grid: array2<int>, sources: array<Source>, count: nat)
    requires count <= sources.Length
    modifies grid
    ensures forall y, x :: 0 <= y < grid.Length0 && 0 <= x < grid.Length1 ==>
              grid[y, x] == Paint(add, old(grid[y, x]), sources[..count], x, y)
  {
    var i := 0;
    while i < count
      invariant 0 <= i <= count
      invariant forall y, x :: 0 <= y < grid.Length0 && 0 <= x < grid.Length1 ==>
                  grid[y, x] == Paint(add, old(grid[y, x]), sources[..i], x, y)
    {
      PaintSource(add, grid, sources[i]);
      assert sources[..i + 1][..i] == sources[..i];
      i := i + 1;
    }
  }

  /** The two inner loops: one source over the part of its square inside the grid. */
  method PaintSource(add: Adder, grid: array2<int>, s: Source)
    modifies grid
    ensures forall y, x :: 0 <= y < grid.Length0 && 0 <= x < grid.Length1 ==>
              grid[y, x] == if Covers(s, x, y) then add(old(grid[y, x]), s.level) else old(grid[y, x])
  {
    var loX := if s.x - s.distance > 0 then s.x - s.distance else 0;
    var hiX := if s.x + s.distance < grid.Length1 - 1 then s.x + s.distance else grid.Length1 - 1;
    var loY := if s.y - s.distance > 0 then s.y - s.distance else 0;
    var hiY := if s.y + s.distance < grid.Length0 - 1 then s.y + s.distance else grid.Length0 - 1;
    var y := loY;
    while y <= hiY
      invariant loY <= y && (y <= hiY + 1 || y == loY)
      invariant forall v, u :: 0 <= v < grid.Length0 && 0 <= u < grid.Length1 ==>
                  grid[v, u] == if v < y && Covers(s, u, v) then add(old(grid[v, u]), s.level)
                                else old(grid[v, u])
    {
      var x := loX;
      while x <= hiX
        invariant loX <= x && (x <= hiX + 1 || x == loX)
        invariant forall v, u :: 0 <= v < grid.Length0 && 0 <= u < grid.Length1 ==>
                    grid[v, u] == if (v < y || (v == y && u < x)) && Covers(s, u, v)
                                  then add(old(grid[v, u]), s.level) else old(grid[v, u])
      {
        grid[y, x] := add(grid[y, x], s.level);
        x := x + 1;
      }
      y := y + 1;
    }
  }

  /** reset_matrix. */
  method Reset(grid: array2<int>)
    modifies grid
    ensures forall y, x :: 0 <= y < grid.Length0 && 0 <= x < grid.Length1 ==> grid[y, x] == 0
  {
    var i := 0;
    while i < grid.Length0
      invariant 0 <= i <= grid.Length0
      invariant forall y, x :: 0 <= y < i && 0 <= x < grid.Length1 ==> grid[y, x] == 0
    {
      var j := 0;
      while j < grid.Length1
        invariant 0 <= j <= grid.Length1
        invariant forall y, x :: 0 <= y < grid.Length0 && 0 <= x < grid.Length1 && (y < i || (y == i && x < j)) ==>
                    grid[y, x] == 0
      {
        grid[i, j] := 0;
        j := j + 1;
      }
      i := i + 1;
    }
  }

  // ----- moving -----

  /** One coordinate: a step of +speed, 0 or -speed, reversed when it would leave. */
  function MoveCoordinate(p: int, speed: int, dir: int, size: int): int {
    var delta := speed * dir;
    if p + delta >= size || p + delta < 0 then p - delta else p + delta
  }

  /** A source always moves by its speed in the drawn direction, or the opposite one exactly
      when it would leave. */
  lemma MovesExactly(p: int, speed: int, dir: int, size: int)
    requires Direction(dir)
    ensures var q := MoveCoordinate(p, speed, dir, size);
            && Abs(q - p) == (if dir == 0 then 0 else Abs(speed))
            && (q - p == speed * dir <==> speed * dir == 0 || 0 <= p + speed * dir < size)
  {
    assert speed * dir == speed || speed * dir == 0 || speed * dir == -speed;
  }

  function MoveSource(s: Source, dirX: int, dirY: int, sizeX: int, sizeY: int): Source {
    s.(x := MoveCoordinate(s.x, s.speed, dirX, sizeX), y := MoveCoordinate(s.y, s.speed, dirY, sizeY))
  }

  predicate Direction(d: int) { d == -1 || d == 0 || d == 1 }

  /** Every position of the grid stays in the grid whatever the draw, exactly when twice
      the speed is at most the dimension. */
  lemma StaysExactlyWhenSlow(speed: int, size: int)
    requires size > 0
    ensures 2 * (if speed < 0 then -speed else speed) <= size <==>
            forall p, d :: 0 <= p < size && Direction(d) ==> 0 <= MoveCoordinate(p, speed, d, size) < size
  {
    var v := if speed < 0 then -speed else speed;
    if 2 * v <= size {
      forall p, d | 0 <= p < size && Direction(d) ensures 0 <= MoveCoordinate(p, speed, d, size) < size {
        assert speed * d == speed || speed * d == 0 || speed * d == -speed;
      }
    } else {
      var p := if size - v > 0 then size - v else 0;
      assert Direction(1) && speed * 1 == speed;
      assert !(0 <= MoveCoordinate(p, speed, 1, size) < size);
    }
  }

  ghost predicate Inside(s: Source, sizeX: int, sizeY: int) { 0 <= s.x < sizeX && 0 <= s.y < sizeY }

  ghost predicate Slow(s: Source, sizeX: int, sizeY: int) {
    var v := if s.speed < 0 then -s.speed else s.speed;
    2 * v <= sizeX && 2 * v <= sizeY
  }

  /** move_noise_sources with the draws given: the first `count` sources take one step
      each, the others do not move, and slow sources inside the grid stay inside. */
  method MoveSources(sources: array<Source>, count: nat, sizeX: int, sizeY: int,
                     dirX: seq<int>, dirY: seq<int>)
    requires count <= sources.Length && |dirX| == |dirY| == count
    requires forall i :: 0 <= i < count ==> Direction(dirX[i]) && Direction(dirY[i])
    modifies sources
    ensures forall i :: 0 <= i < count ==>
              sources[i] == MoveSource(old(sources[i]), dirX[i], dirY[i], sizeX, sizeY)
    ensures forall i :: count <= i < sources.Length ==> sources[i] == old(sources[i])
    ensures forall i :: 0 <= i < count && old(Inside(sources[i], sizeX, sizeY) && Slow(sources[i], sizeX, sizeY)) ==>
              Inside(sources[i], sizeX, sizeY) && Slow(sources[i], sizeX, sizeY)
  {
    var i := 0;
    while i < count
      invariant 0 <= i <= count
      invariant forall j :: 0 <= j < i ==>
                  sources[j] == MoveSource(old(sources[j]), dirX[j], dirY[j], sizeX, sizeY)
      invariant forall j :: i <= j < sources.Length ==> sources[j] == old(sources[j])
    {
      var s := sources[i];
      var deltaX, deltaY := s.speed * dirX[i], s.speed * dirY[i];
      if s.x + deltaX >= sizeX || s.x + deltaX < 0 { deltaX := -deltaX; }
      if s.y + deltaY >= sizeY || s.y + deltaY < 0 { deltaY := -deltaY; }
      sources[i] := s.(x := s.x + deltaX, y := s.y + deltaY);
      i := i + 1;
    }
    forall j | 0 <= j < count && old(Inside(sources[j], sizeX, sizeY) && Slow(sources[j], sizeX, sizeY))
      ensures Inside(sources[j], sizeX, sizeY) && Slow(sources[j], sizeX, sizeY)
    {
      MoveStays(old(sources[j]), dirX[j], dirY[j], sizeX, sizeY);
    }
  }

  lemma MoveStays(s: Source, dirX: int, dirY: int, sizeX: int, sizeY: int)
    requires Inside(s, sizeX, sizeY) && Slow(s, sizeX, sizeY) && Direction(dirX) && Direction(dirY)
    ensures var t := MoveSource(s, dirX, dirY, sizeX, sizeY);
            Inside(t, sizeX, sizeY) && Slow(t, sizeX, sizeY)
  {
    StaysExactlyWhenSlow(s.speed, sizeX);
    StaysExactlyWhenSlow(s.speed, sizeY);
  }

  // ----- the distributed computation -----

  lemma {:induction false} PaintAppend(add: Adder, v: int, a: seq<Source>, b: seq<Source>, x: int, y: int)
    ensures Paint(add, v, a + b, x, y) == Paint(add, Paint(add, v, a, x, y), b, x, y)
    decreases |b|
  {
    if b == [] {
      assert a + b == a;
    } else {
      var n := |b| - 1;
      PaintAppend(add, v, a, b[..n], x, y);
      assert (a + b)[..|a + b| - 1] == a + b[..n];
    }
  }

  predicate Groups(add: Adder, a: int, b: int, c: int) { add(add(a, b), c) == add(a, add(b, c)) }

  ghost predicate Associative(add: Adder) {
    forall a, b, c :: Groups(add, a, b, c)
  }

  lemma LawGroups(add: Adder)
    requires RightCommutes(add) && ZeroNeutral(add)
    ensures Associative(add)
  {
    forall a, b, c ensures Groups(add, a, b, c) { Associates(add, a, b, c); }
  }

  lemma {:induction false} PaintFromZero(add: Adder, v: int, a: seq<Source>, x: int, y: int)
    requires Associative(add) && ZeroNeutral(add)
    ensures add(v, Paint(add, 0, a, x, y)) == Paint(add, v, a, x, y)
  {
    if a != [] {
      var n := |a| - 1;
      PaintFromZero(add, v, a[..n], x, y);
      assert Groups(add, v, Paint(add, 0, a[..n], x, y), a[n].level);
    }
  }

  lemma PaintJoin(add: Adder, a: seq<Source>, b: seq<Source>, x: int, y: int)
    requires Associative(add) && ZeroNeutral(add)
    ensures Paint(add, 0, a + b, x, y) == add(Paint(add, 0, a, x, y), Paint(add, 0, b, x, y))
  {
    PaintAppend(add, 0, a, b, x, y);
    PaintFromZero(add, Paint(add, 0, a, x, y), b, x, y);
  }

  /** The sources ranks 0 .. n-1 process, rank after rank. */
  function Processed(parts: seq<seq<Source>>, n: nat): seq<Source>
    requires n <= |parts|
  {
    if n == 0 then [] else Processed(parts, n - 1) + parts[n - 1]
  }

  /** The simulation on a grid sizeX wide with `cells` cells: worlds[j][r] are the sources
      that rank r processes in cycle j, wherever they have moved by then. */
  ghost predicate Worlds(worlds: seq<seq<seq<Source>>>, ranks: nat) {
    forall j :: 0 <= j < |worlds| ==> |worlds[j]| == ranks
  }

  /** The sources of all ranks in the cycle of walk position g. */
  function WorldAt(worlds: seq<seq<seq<Source>>>, cells: nat, g: nat): seq<seq<Source>> {
    if cells > 0 && g / cells < |worlds| then worlds[g / cells] else []
  }

  function Column(cells: nat, sizeX: nat, g: nat): int {
    if cells > 0 && sizeX > 0 then (g % cells) % sizeX else 0
  }

  function Row(cells: nat, sizeX: nat, g: nat): int {
    if cells > 0 && sizeX > 0 then (g % cells) / sizeX else 0
  }

  /** What rank r paints on a grid that was reset before, at walk position g. */
  function Painted(add: Adder, worlds: seq<seq<seq<Source>>>, cells: nat, sizeX: nat): Local {
    (r: nat, g: nat) =>
      var world := WorldAt(worlds, cells, g);
      if r < |world| then Paint(add, 0, world[r], Column(cells, sizeX, g), Row(cells, sizeX, g)) else 0
  }

  /** The rank-order sum of what the ranks painted at one place is what painting their
      sources one after the other gives. */
  lemma {:induction false} RankFoldPaints(add: Adder, local: Local, parts: seq<seq<Source>>, g: nat, x: int, y: int, n: nat)
    requires RightCommutes(add) && ZeroNeutral(add) && n <= |parts|
    requires forall r: nat :: r < |parts| ==> local(r, g) == Paint(add, 0, parts[r], x, y)
    ensures RankFold(add, local, g, n) == Paint(add, 0, Processed(parts, n), x, y)
  {
    if n > 0 {
      RankFoldPaints(add, local, parts, g, x, y, n - 1);
      LawGroups(add);
      PaintJoin(add, Processed(parts, n - 1), parts[n - 1], x, y);
      assert local(n - 1, g) == Paint(add, 0, parts[n - 1], x, y);
    }
  }

  /** The noise of walk position g when one process paints the sources of all ranks. */
  function Sequential(add: Adder, worlds: seq<seq<seq<Source>>>, cells: nat, sizeX: nat, g: nat): int {
    var world := WorldAt(worlds, cells, g);
    Paint(add, 0, Processed(world, |world|), Column(cells, sizeX, g), Row(cells, sizeX, g))
  }

  /** Every run of the simulation leaves for every cell of every cycle what one process
      would compute from the sources of all ranks. */
  ghost predicate ComputesNoise(add: Adder, ranks: nat, sizeX: nat, sizeY: nat, cycles: nat) {
    forall worlds, acts, s, r: nat, k: nat ::
      Simulated(add, worlds, Config(ranks, sizeX * sizeY, cycles), sizeX, acts, s, r, k) ==>
      Level(add, s.noises[r][k]) == Sequential(add, worlds, sizeX * sizeY, sizeX, s.noises[r][k].cell)
  }

  /** Entry k of rank r at the end of a run of the simulation. */
  ghost predicate Simulated(add: Adder, worlds: seq<seq<seq<Source>>>, cfg: Config, sizeX: nat,
                            acts: seq<Action>, s: State, r: nat, k: nat)
  {
    && Worlds(worlds, cfg.ranks) && |worlds| == cfg.cycles
    && Ends(cfg, Painted(add, worlds, cfg.cells, sizeX), acts, s) && r < cfg.ranks && k < |s.noises[r]|
  }

  /** Any number of cycles computes in parallel what one process would, whatever the
      schedule, for an operator that takes two operands in either order. */
  lemma DistributedIsSequential(add: Adder, worlds: seq<seq<seq<Source>>>, cfg: Config, sizeX: nat,
                                acts: seq<Action>, s: State, r: nat, k: nat)
    requires cfg.cells > 0 && cfg.Safe() && RightCommutes(add) && ZeroNeutral(add)
    requires Simulated(add, worlds, cfg, sizeX, acts, s, r, k)
    ensures Level(add, s.noises[r][k]) == Sequential(add, worlds, cfg.cells, sizeX, s.noises[r][k].cell)
  {
    var local, g := Painted(add, worlds, cfg.cells, sizeX), s.noises[r][k].cell;
    ScheduleFree(cfg, local, acts, s, add, r, k);
    WalkResult(cfg, local, acts, s, r);
    assert EntryOk(cfg, local, r, k, s.noises[r][k]);
    CycleOf(cfg, g);
    OwnerIrrelevant(add, local, r, g, cfg.ranks);
    RankFoldPaints(add, local, WorldAt(worlds, cfg.cells, g), g, Column(cfg.cells, sizeX, g), Row(cfg.cells, sizeX, g),
                   cfg.ranks);
  }

  lemma CycleOf(cfg: Config, g: nat)
    requires cfg.cells > 0 && g < cfg.Total()
    ensures g / cfg.cells < cfg.cycles
  {
    var q := g / cfg.cells;
    assert g == cfg.cells * q + g % cfg.cells;
    if q >= cfg.cycles { MulMonotone(cfg.cells, cfg.cycles, q); }
  }

  lemma MulMonotone(w: nat, a: nat, b: nat)
    requires a <= b
    ensures w * a <= w * b
  {}
}
