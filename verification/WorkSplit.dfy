/** How mpi/main.c divides sources and cells among the ranks. */
module WorkSplit {
  import opened Arith
  import opened Shuffle
  import opened ShuffleMatching

  /** Blocks of w ranks that tile [0, total): each starts where the one before it ends, the
      last one ends at total, and the first total mod w are one longer than the others. */
  ghost predicate Tiles(counts: seq<int>, displs: seq<int>, total: nat, w: nat) {
    w > 0 && TilesBy(counts, displs, total, w, total / w, total % w)
  }

  ghost predicate TilesBy(counts: seq<int>, displs: seq<int>, total: nat, w: nat, per: nat, res: nat) {
    && |counts| == |displs| == w > 0
    && displs[0] == 0 && displs[w - 1] + counts[w - 1] == total
    && (forall i {:trigger counts[i]} :: 0 <= i < w - 1 ==> displs[i + 1] == displs[i] + counts[i])
    && (forall i :: 0 <= i < w ==> counts[i] == per + if i < res then 1 else 0)
  }

  /** The counts and displacements of a scatter or gather over w ranks.  They tile
      [0, total), and a rank's count is the number of indices it owns under round robin. */
  method Split(total: nat, w: nat) returns (counts: array<int>, displs: array<int>)
    requires w > 0
    ensures fresh(counts) && fresh(displs) && Tiles(counts[..], displs[..], total, w)
    ensures forall i :: 0 <= i < w ==> counts[..][i] == Owned(Config(w, total, 1), i, total)
  {
    var per, res := total / w, total % w;
    counts, displs := Blocks(per, res, w);
    assert total == w * per + res;
    forall j | 0 <= j < w ensures counts[j] == Owned(Config(w, total, 1), j, total) {
      OwnedClosedForm(Config(w, total, 1), j, total);
    }
  }

  /** The loop: `per` indices for every rank and one more for the first `res` of them. */
  method Blocks(per: nat, res: nat, w: nat) returns (counts: array<int>, displs: array<int>)
    requires res < w
    ensures fresh(counts) && fresh(displs) && counts.Length == displs.Length == w
    ensures displs[0] == 0 && displs[w - 1] + counts[w - 1] == w * per + res
    ensures forall i {:trigger counts[i]} :: 0 <= i < w - 1 ==> displs[i + 1] == displs[i] + counts[i]
    ensures forall i :: 0 <= i < w ==> counts[i] == per + if i < res then 1 else 0
  {
    counts, displs := new int[w], new int[w];
    var inc, i := 0, 0;
    while i < w
      invariant 0 <= i <= w
      invariant inc == i * per + if i <= res then i else res
      invariant forall j :: 0 <= j < i ==> counts[j] == per + if j < res then 1 else 0
      invariant i > 0 ==> displs[0] == 0 && displs[i - 1] + counts[i - 1] == inc
      invariant forall j {:trigger counts[j]} :: 0 <= j < i - 1 ==> displs[j + 1] == displs[j] + counts[j]
    {
      displs[i] := inc;
      counts[i] := if i + 1 <= res then per + 1 else per;
      inc := inc + counts[i];
      assert (i + 1) * per == i * per + per;
      i := i + 1;
    }
  }

  /** Among the first p cells rank r owns p / w of them, and one more if r < p mod w. */
  lemma {:induction false} OwnedClosedForm(cfg: Config, r: nat, p: nat)
    requires r < cfg.ranks && cfg.cycles == 1 && p <= cfg.cells
    ensures Owned(cfg, r, p) == p / cfg.ranks + if r < p % cfg.ranks then 1 else 0
  {
    var w := cfg.ranks;
    if p == 0 {
      ModSmall(0, w);
    } else {
      OwnedClosedForm(cfg, r, p - 1);
      assert cfg.Total() == cfg.cells;
      RoundRobin(cfg, p - 1);
      NextQuotient(p - 1, w);
    }
  }

  /** Entry k of rank r is cell k * w + r, so my_noises is filled exactly once, in order,
      and a cell c sits in entry c / w of rank c mod w. */
  lemma EntryCell(cfg: Config, r: nat, c: nat)
    requires r < cfg.ranks && cfg.cycles == 1 && c < cfg.cells && cfg.Owner(c) == r
    ensures c % cfg.ranks == r && Owned(cfg, r, c) == c / cfg.ranks
    ensures c == cfg.ranks * Owned(cfg, r, c) + r
    ensures Owned(cfg, r, c) < Owned(cfg, r, cfg.cells)
  {
    PlaceOf(cfg, r, c);
    OwnedMonotone(cfg, r, c + 1, cfg.cells);
  }

  lemma PlaceOf(cfg: Config, r: nat, c: nat)
    requires r < cfg.ranks && cfg.cycles == 1 && c < cfg.cells && cfg.Owner(c) == r
    ensures c % cfg.ranks == r && Owned(cfg, r, c) == c / cfg.ranks && c == cfg.ranks * (c / cfg.ranks) + r
  {
    assert cfg.Total() == cfg.cells;
    RoundRobin(cfg, c);
    OwnedClosedForm(cfg, r, c);
  }

  // ----- which sources are processed -----

  /** Some rank computes and moves source i: the first total / w of its block. */
  ghost predicate Handled(displs: seq<int>, total: nat, w: nat, i: int)
    requires w > 0
  {
    exists r :: 0 <= r < |displs| && displs[r] <= i < displs[r] + total / w
  }

  lemma {:induction false} BlocksApart(counts: seq<int>, displs: seq<int>, total: nat, w: nat, per: nat, res: nat, r: nat, q: nat)
    requires TilesBy(counts, displs, total, w, per, res) && r < q < w
    ensures displs[r] + counts[r] <= displs[q]
    decreases q
  {
    assert counts[q - 1] >= 0;
    if r < q - 1 { BlocksApart(counts, displs, total, w, per, res, r, q - 1); }
  }

  lemma {:induction false} BlockOf(counts: seq<int>, displs: seq<int>, total: nat, w: nat, per: nat, res: nat, i: nat, n: nat)
      returns (r: nat)
    requires TilesBy(counts, displs, total, w, per, res) && n < w && i < displs[n] + counts[n]
    ensures r <= n && displs[r] <= i < displs[r] + counts[r]
    decreases n
  {
    if displs[n] <= i || n == 0 {
      r := n;
    } else {
      assert counts[n - 1] >= 0;
      r := BlockOf(counts, displs, total, w, per, res, i, n - 1);
    }
  }

  /** The sources nobody processes are exactly the last ones of the longer blocks. */
  lemma MissedExactly(counts: seq<int>, displs: seq<int>, total: nat, w: nat, i: nat)
    requires Tiles(counts, displs, total, w) && i < total
    ensures !Handled(displs, total, w, i) <==> exists r :: 0 <= r < total % w && i == displs[r] + total / w
  {
    var per, res := total / w, total % w;
    var r := BlockOf(counts, displs, total, w, per, res, i, w - 1);
    forall q | 0 <= q < w && displs[q] <= i <= displs[q] + per && (i == displs[q] + per ==> q < res)
      ensures q == r
    {
      if q < r { BlocksApart(counts, displs, total, w, per, res, q, r); }
      if r < q { BlocksApart(counts, displs, total, w, per, res, r, q); }
    }
  }

  /** The ranks compute and move total / w sources each, although the first total mod w of
      them were sent one more: all are processed exactly when w divides total. */
  lemma AllProcessedExactlyWhenDivisible(counts: seq<int>, displs: seq<int>, total: nat, w: nat)
    requires Tiles(counts, displs, total, w)
    ensures (forall i :: 0 <= i < total ==> Handled(displs, total, w, i)) <==> total % w == 0
  {
    forall i | 0 <= i < total ensures Handled(displs, total, w, i) || total % w != 0 {
      MissedExactly(counts, displs, total, w, i);
    }
    if total % w != 0 {
      var i := displs[0] + total / w;
      if w > 1 { BlocksApart(counts, displs, total, w, total / w, total % w, 0, w - 1); }
      MissedExactly(counts, displs, total, w, i);
    }
  }
}
