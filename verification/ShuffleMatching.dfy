/** Which messages a receive of the shuffle can take (mpi/main.c).  Messages carry no
    cell number and the receive names no source, so the reduction of a cell is right
    only if every rank is held back far enough by its own blocking receives.  This
    module proves exactly when that is so. */
module ShuffleMatching {
  import opened Arith
  import opened Shuffle

  ghost predicate From(ms: seq<Message>, src: nat) {
    exists i :: 0 <= i < |ms| && ms[i].src == src
  }

  // ----- W - 1 distinct senders are all the other ranks -----

  ghost function Sources(ms: seq<Message>): set<nat> {
    if ms == [] then {} else Sources(ms[..|ms| - 1]) + {ms[|ms| - 1].src}
  }

  lemma FromExtended(ms: seq<Message>, m: Message, q: nat)
    ensures From(ms + [m], q) <==> From(ms, q) || q == m.src
  {
    var u := ms + [m];
    assert u[|ms|] == m;
    if From(ms, q) {
      var i :| 0 <= i < |ms| && ms[i].src == q;
      assert u[i].src == q;
    }
  }

  lemma {:induction false} SourcesFrom(ms: seq<Message>, q: nat)
    ensures q in Sources(ms) <==> From(ms, q)
  {
    if ms != [] {
      var u := ms[..|ms| - 1];
      SourcesFrom(u, q);
      assert ms == u + [ms[|ms| - 1]];
      FromExtended(u, ms[|ms| - 1], q);
    }
  }

  lemma {:induction false} SourcesCounted(ms: seq<Message>)
    requires forall i, j :: 0 <= i < j < |ms| ==> ms[i].src != ms[j].src
    ensures |Sources(ms)| == |ms|
  {
    if ms != [] {
      var u := ms[..|ms| - 1];
      SourcesCounted(u);
      SourcesFrom(u, ms[|ms| - 1].src);
    }
  }

  ghost function Range(n: nat): (s: set<nat>)
    ensures |s| == n && forall q: nat :: q in s <==> q < n
  {
    if n == 0 then {} else Range(n - 1) + {n - 1}
  }

  lemma SubsetOfSameSize(a: set<nat>, b: set<nat>)
    requires a <= b && |a| == |b|
    ensures a == b
  {
    assert b == a + (b - a) && |a + (b - a)| == |a| + |b - a|;
  }

  lemma AllSenders(cfg: Config, local: Local, r: nat, g: nat, ms: seq<Message>)
    requires r < cfg.ranks && |ms| == cfg.ranks - 1 && Matched(cfg, local, r, g, ms)
    ensures forall q :: 0 <= q < cfg.ranks && q != r ==> From(ms, q)
  {
    SourcesCounted(ms);
    var all := Range(cfg.ranks);
    forall q: nat ensures q in Sources(ms) <==> From(ms, q) { SourcesFrom(ms, q); }
    assert |all - {r}| == cfg.ranks - 1;
    SubsetOfSameSize(Sources(ms), all - {r});
    forall q | 0 <= q < cfg.ranks && q != r ensures From(ms, q) { assert q in all - {r}; }
  }

  // ----- the invariant of exact matching -----

  ghost predicate Receipts(cfg: Config, local: Local, s: State, r: nat)
    requires cfg.Valid() && Shape(cfg, s) && r < cfg.ranks
  {
    && Matched(cfg, local, r, s.pos[r], s.got[r])
    && (forall q :: 0 <= q < cfg.ranks && q != r ==>
          s.taken[r][q] == Owned(cfg, r, s.pos[r]) + if From(s.got[r], q) then 1 else 0)
  }

  /** Entry k of a rank is its k-th cell, reduced with one message of every other rank. */
  ghost predicate EntryOk(cfg: Config, local: Local, r: nat, k: nat, e: Entry)
    requires cfg.Valid()
  {
    && cfg.Owner(e.cell) == r && Owned(cfg, r, e.cell) == k && e.cell < cfg.Total()
    && e.own == local(r, e.cell)
    && |e.operands| == cfg.ranks - 1
    && Matched(cfg, local, r, e.cell, e.operands)
  }

  ghost predicate Entries(cfg: Config, local: Local, s: State, r: nat)
    requires cfg.Valid() && Shape(cfg, s) && r < cfg.ranks
  {
    && |s.noises[r]| == Owned(cfg, r, s.pos[r])
    && (forall k :: 0 <= k < |s.noises[r]| ==> EntryOk(cfg, local, r, k, s.noises[r][k]))
  }

  /** If the owner of g has passed g, every rank has. */
  ghost predicate HeldBack(cfg: Config, s: State)
    requires cfg.Valid() && Shape(cfg, s)
  {
    forall r, g :: 0 <= r < cfg.ranks && 0 <= g < s.pos[r] && cfg.Owner(g) == r ==>
      forall q :: 0 <= q < cfg.ranks ==> g < s.pos[q]
  }

  ghost predicate Exact(cfg: Config, local: Local, s: State) {
    && Inv(cfg, local, s)
    && (forall r :: 0 <= r < cfg.ranks ==> Receipts(cfg, local, s, r) && Entries(cfg, local, s, r))
    && HeldBack(cfg, s)
  }

  lemma InitExact(cfg: Config, local: Local)
    requires cfg.Valid()
    ensures Exact(cfg, local, Init(cfg))
  {
    InitInv(cfg, local);
  }

  // ----- round-robin ownership -----

  /** The next cell of a rank is ranks cells away. */
  lemma {:induction false} NoneBetween(cfg: Config, r: nat, c: nat, p: nat)
    requires cfg.Valid() && c < p
    requires forall g :: c < g < p ==> cfg.Owner(g) != r
    ensures Owned(cfg, r, p) <= Owned(cfg, r, c) + 1
    decreases p
  {
    if p > c + 1 { NoneBetween(cfg, r, c, p - 1); }
  }

  lemma MulAssociates(w: int, m: int, q: int)
    ensures (w * m) * q == w * (m * q)
  {}

  lemma OneCycle(cfg: Config)
    requires cfg.cycles <= 1
    ensures cfg.Total() <= cfg.cells
  {
    if cfg.cycles == 1 { assert cfg.cells * 1 == cfg.cells; }
  }

  lemma RoundRobin(cfg: Config, g: nat)
    requires cfg.Valid() && g < cfg.Total() && (cfg.cycles <= 1 || cfg.cells % cfg.ranks == 0)
    ensures cfg.Owner(g) == g % cfg.ranks
  {
    if cfg.cycles <= 1 {
      OneCycle(cfg);
      ModSmall(g, cfg.cells);
    } else if cfg.cells > 0 {
      ResidueKept(g, cfg.cells, cfg.ranks);
    }
  }

  lemma ResidueKept(g: nat, n: nat, w: nat)
    requires n > 0 && w > 0 && n % w == 0
    ensures (g % n) % w == g % w
  {
    var m, q, r := n / w, g / n, g % n;
    assert n == w * m && g == n * q + r;
    MulAssociates(w, m, q);
    ModShift(r, m * q, w);
  }

  /** From a cell of rank r, the next cell of rank src is less than ranks cells on. */
  lemma NextCellOf(w: nat, c: nat, src: nat) returns (g: nat)
    requires src < w && c % w != src
    ensures c < g < c + w && g % w == src
  {
    var r := c % w;
    var d := if src > r then src - r else src - r + w;
    g := c + d;
    var q := c / w;
    assert c == w * q + r;
    if src > r {
      UniqueRemainder(g, q, src, w);
    } else {
      assert w * (q + 1) == w * q + w;
      UniqueRemainder(g, q + 1, src, w);
    }
  }

  /** The heart: a rank that already delivered its message for the cell r stands on
      has nothing more in flight to r. */
  lemma OneAhead(cfg: Config, local: Local, s: State, r: nat, src: nat)
    requires Exact(cfg, local, s) && cfg.Safe()
    requires Enabled(cfg, s, Recv(r, src))
    ensures src != r && !From(s.got[r], src)
  {
    var c := s.pos[r];
    assert Channel(cfg, local, s, r, src);
    assert Receipts(cfg, local, s, r);
    if From(s.got[r], src) {
      if cfg.ranks <= 2 { assert false; }
      var p := s.pos[src];
      assert Owned(cfg, r, p) >= Owned(cfg, r, c) + 2;
      assert Counted(cfg, s, src);
      if p <= c { OwnedMonotone(cfg, r, p, c); assert false; }
      if exists g :: c < g < p && cfg.Owner(g) == r {
        var g :| c < g < p && cfg.Owner(g) == r;
        RoundRobin(cfg, c); RoundRobin(cfg, g);
        if g < c + cfg.ranks { ModInjective(g, c, cfg.ranks); assert false; }
        var h := NextCellOf(cfg.ranks, c, src);
        RoundRobin(cfg, h);
        assert false;
      } else {
        NoneBetween(cfg, r, c, p);
        assert false;
      }
    }
  }

  // ----- every step keeps it -----

  lemma SendExact(cfg: Config, local: Local, s: State, r: nat)
    requires Exact(cfg, local, s) && Enabled(cfg, s, Send(r))
    ensures Exact(cfg, local, Next(cfg, local, s, Send(r)))
  {
    SendInv(cfg, local, s, r);
    var s' := Next(cfg, local, s, Send(r));
    assert Counted(cfg, s, r);
    forall d | 0 <= d < cfg.ranks
      ensures Receipts(cfg, local, s', d) && Entries(cfg, local, s', d)
    {
      assert Receipts(cfg, local, s, d) && Entries(cfg, local, s, d);
    }
  }

  lemma RecvExact(cfg: Config, local: Local, s: State, r: nat, src: nat)
    requires Exact(cfg, local, s) && cfg.Safe() && Enabled(cfg, s, Recv(r, src))
    ensures Exact(cfg, local, Next(cfg, local, s, Recv(r, src)))
  {
    RecvInv(cfg, local, s, r, src);
    OneAhead(cfg, local, s, r, src);
    var s', c := Next(cfg, local, s, Recv(r, src)), s.pos[r];
    assert Channel(cfg, local, s, r, src);
    assert Receipts(cfg, local, s, r);
    if s.pos[src] <= c { OwnedMonotone(cfg, r, s.pos[src], c); assert false; }
    SentAt(cfg, local, src, r, c, s.pos[src]);
    var old', new' := s.got[r], s'.got[r];
    assert new' == old' + [Message(src, c, local(src, c))];
    forall q ensures From(new', q) <==> From(old', q) || q == src { FromExtended(old', new'[|old'|], q); }
    forall i, j | 0 <= i < j < |new'| ensures new'[i].src != new'[j].src {
      if j == |old'| { assert old'[i] == new'[i]; }
    }
    forall d | 0 <= d < cfg.ranks
      ensures Receipts(cfg, local, s', d) && Entries(cfg, local, s', d)
    {
      assert Receipts(cfg, local, s, d) && Entries(cfg, local, s, d);
    }
  }

  lemma FinishExact(cfg: Config, local: Local, s: State, r: nat)
    requires Exact(cfg, local, s) && Enabled(cfg, s, Finish(r))
    ensures Exact(cfg, local, Next(cfg, local, s, Finish(r)))
  {
    FinishInv(cfg, local, s, r);
    var s', c := Next(cfg, local, s, Finish(r)), s.pos[r];
    assert Receipts(cfg, local, s, r);
    AllSenders(cfg, local, r, c, s.got[r]);
    forall q | 0 <= q < cfg.ranks && q != r ensures c < s.pos[q] {
      assert Channel(cfg, local, s, r, q);
      if s.pos[q] <= c { OwnedMonotone(cfg, r, s.pos[q], c); assert false; }
    }
    assert HeldBack(cfg, s');
    forall d | 0 <= d < cfg.ranks
      ensures Receipts(cfg, local, s', d) && Entries(cfg, local, s', d)
    {
      assert Receipts(cfg, local, s, d) && Entries(cfg, local, s, d);
    }
  }

  lemma {:induction false} RunExact(cfg: Config, local: Local, s: State, acts: seq<Action>, s': State)
    requires Exact(cfg, local, s) && cfg.Safe() && Run(cfg, local, s, acts, s')
    ensures Exact(cfg, local, s')
    decreases |acts|
  {
    if acts != [] {
      match acts[0] {
        case Send(r) => SendExact(cfg, local, s, r);
        case Recv(r, src) => RecvExact(cfg, local, s, r, src);
        case Finish(r) => FinishExact(cfg, local, s, r);
      }
      RunExact(cfg, local, Next(cfg, local, s, acts[0]), acts[1..], s');
    }
  }

  // ----- the run that goes wrong otherwise -----

  lemma {:induction false} RunAppend(cfg: Config, local: Local, s: State, a: seq<Action>, t: State, b: seq<Action>, u: State)
    requires Run(cfg, local, s, a, t) && Run(cfg, local, t, b, u)
    ensures Run(cfg, local, s, a + b, u)
    decreases |a|
  {
    if a == [] {
      assert a + b == b;
    } else {
      assert (a + b)[1..] == a[1..] + b;
      RunAppend(cfg, local, Next(cfg, local, s, a[0]), a[1..], t, b, u);
    }
  }

  /** `small` walks the first cells of `cfg`, with the same owners. */
  ghost predicate StartOf(small: Config, cfg: Config) {
    && small.ranks == cfg.ranks > 0 && small.Total() <= cfg.Total()
    && forall g {:trigger cfg.Owner(g)} :: 0 <= g < small.Total() ==> small.Owner(g) == cfg.Owner(g)
  }

  /** A run over the first cells of a walk is a run of the longer walk. */
  lemma {:induction false} RunWidens(small: Config, cfg: Config, local: Local, s: State, acts: seq<Action>, t: State)
    requires StartOf(small, cfg) && Run(small, local, s, acts, t)
    ensures Run(cfg, local, s, acts, t)
    decreases |acts|
  {
    if acts != [] {
      assert cfg.Owner(s.pos[acts[0].r]) == small.Owner(s.pos[acts[0].r]);
      RunWidens(small, cfg, local, Next(cfg, local, s, acts[0]), acts[1..], t);
    }
  }

  lemma SmallStarts(cfg: Config, b: nat)
    requires cfg.Valid() && b <= cfg.cells && cfg.cycles >= 1
    ensures StartOf(Config(cfg.ranks, b, 1), cfg)
  {
    WholeCycle(cfg);
    var small := Config(cfg.ranks, b, 1);
    assert small.Total() == b;
    forall g {:trigger cfg.Owner(g)} | 0 <= g < b ensures small.Owner(g) == cfg.Owner(g) {
      ModSmall(g, b);
      ModSmall(g, cfg.cells);
    }
  }

  lemma WholeCycle(cfg: Config)
    ensures cfg.cycles >= 1 ==> cfg.cells <= cfg.Total()
    ensures cfg.cycles >= 2 && cfg.cells > 0 ==> cfg.cells + 1 <= cfg.Total()
  {
    if cfg.cycles >= 1 { assert cfg.cells * cfg.cycles == cfg.cells + cfg.cells * (cfg.cycles - 1); }
    if cfg.cycles >= 2 && cfg.cells > 0 { MulAtLeast(cfg.cells, cfg.cycles - 1); }
  }

  /** k sends of rank q in a row, while it owns none of the cells it passes. */
  lemma {:induction false} RunAhead(cfg: Config, local: Local, s: State, q: nat, k: nat)
      returns (acts: seq<Action>, t: State)
    requires Inv(cfg, local, s) && q < cfg.ranks && s.pos[q] + k <= cfg.Total()
    requires forall g :: s.pos[q] <= g < s.pos[q] + k ==> cfg.Owner(g) != q
    ensures Run(cfg, local, s, acts, t) && Inv(cfg, local, t)
    ensures t.pos == s.pos[q := s.pos[q] + k] && t.got == s.got && t.taken == s.taken && t.noises == s.noises
    ensures forall r, p :: 0 <= r < cfg.ranks && 0 <= p < cfg.ranks && p != q ==> t.chan[r][p] == s.chan[r][p]
    decreases k
  {
    if k == 0 {
      acts, t := [], s;
    } else {
      SendInv(cfg, local, s, q);
      var s1 := Next(cfg, local, s, Send(q));
      var rest;
      rest, t := RunAhead(cfg, local, s1, q, k - 1);
      acts := [Send(q)] + rest;
      assert acts[1..] == rest;
    }
  }

  lemma {:induction false} CompleteSmall(cfg: Config, local: Local, b: nat) returns (acts: seq<Action>, s: State)
    requires cfg.Valid() && b <= cfg.cells && cfg.cycles >= 1
    ensures Run(cfg, local, Init(cfg), acts, s) && Inv(cfg, local, s)
    ensures forall r :: 0 <= r < cfg.ranks ==> s.pos[r] == b && s.got[r] == []
    ensures forall r, q :: 0 <= r < cfg.ranks && 0 <= q < cfg.ranks ==> s.chan[r][q] == []
  {
    var small := Config(cfg.ranks, b, 1);
    InitInv(small, local);
    InitInv(cfg, local);
    assert Init(small) == Init(cfg);
    acts, s := Completes(small, local, Init(small));
    RunInv(small, local, Init(small), acts, s);
    SmallStarts(cfg, b);
    RunWidens(small, cfg, local, Init(small), acts, s);
    RunInv(cfg, local, Init(cfg), acts, s);
    forall r, q | 0 <= r < cfg.ranks && 0 <= q < cfg.ranks
      ensures s.chan[r][q] == [] && s.got[r] == []
    {
      Drained(small, local, s, r, q);
    }
    forall r | 0 <= r < cfg.ranks ensures s.pos[r] == b && s.got[r] == [] {
      Drained(small, local, s, r, r);
      assert small.Total() == b;
    }
  }

  /** The message of a cell is in its place on the channel to the cell's owner. */
  lemma OnChannel(cfg: Config, local: Local, s: State, r: nat, q: nat, c: nat)
    requires Inv(cfg, local, s) && r < cfg.ranks && q < cfg.ranks && q != r
    requires cfg.Owner(c) == r && c < s.pos[q] && s.taken[r][q] <= Owned(cfg, r, c)
    ensures Owned(cfg, r, c) - s.taken[r][q] < |s.chan[r][q]|
    ensures s.chan[r][q][Owned(cfg, r, c) - s.taken[r][q]] == Message(q, c, local(q, c))
  {
    assert Channel(cfg, local, s, r, q);
    SentAt(cfg, local, q, r, c, s.pos[q]);
    OwnedMonotone(cfg, r, c + 1, s.pos[q]);
  }

  /** A rank that has received nothing for its cell takes a message from q1, then one from
      q2. */
  lemma TwoRecv(cfg: Config, local: Local, s: State, r: nat, q1: nat, q2: nat) returns (t: State)
    requires cfg.Valid() && Shape(cfg, s) && cfg.ranks >= 3 && r < cfg.ranks && q1 < cfg.ranks && q2 < cfg.ranks
    requires s.pos[r] < cfg.Total() && cfg.Owner(s.pos[r]) == r && s.got[r] == []
    requires s.chan[r][q1] != [] && s.chan[r][q2] != [] && (q1 == q2 ==> |s.chan[r][q1]| >= 2)
    ensures Run(cfg, local, s, [Recv(r, q1), Recv(r, q2)], t)
    ensures Shape(cfg, t) && t.pos == s.pos && t.noises == s.noises
    ensures t.got[r] == [s.chan[r][q1][0], s.chan[r][q2][if q1 == q2 then 1 else 0]]
    ensures forall p :: 0 <= p < cfg.ranks ==>
              t.chan[r][p] == s.chan[r][p][(if p == q1 then 1 else 0) + (if p == q2 then 1 else 0)..]
  {
    var s1 := Next(cfg, local, s, Recv(r, q1));
    t := Next(cfg, local, s1, Recv(r, q2));
    TwoSteps(cfg, local, s, Recv(r, q1), Recv(r, q2));
  }

  /** With three or more ranks and a grid they do not divide, the last rank can send two
      cells of rank 0 in a row across the cycle boundary. */
  lemma TwoAhead(cfg: Config, local: Local) returns (acts: seq<Action>, s: State, b: nat)
    requires cfg.Valid() && cfg.cells > 0 && !cfg.Safe()
    ensures cfg.ranks >= 3 && Reaches(cfg, local, acts, s) && Inv(cfg, local, s)
    ensures var n, q := cfg.cells, cfg.ranks - 1;
            && b < n < cfg.Total() && cfg.Owner(b) == 0 && s.pos[q] == n + 1 && s.got[0] == []
            && s.chan[0][q] == [Message(q, b, local(q, b)), Message(q, n, local(q, n))]
            && forall p :: 0 <= p < q ==> s.chan[0][p] == [] && s.pos[p] == b
  {
    var n, q := cfg.cells, cfg.ranks - 1;
    b := Boundary(cfg);
    var acts0, s0 := CompleteSmall(cfg, local, b);
    var acts1;
    acts1, s := RunAhead(cfg, local, s0, q, n + 1 - b);
    acts := acts0 + acts1;
    RunAppend(cfg, local, Init(cfg), acts0, s0, acts1, s);
    assert s.taken[0][q] == Owned(cfg, 0, b) by { assert Channel(cfg, local, s0, 0, q); }
    TwoInFlight(cfg, local, s, q, b);
  }

  /** Around the end of a cycle: rank 0 owns cell b and, as its next one, the first cell of
      the next cycle; the last rank owns none from b to there. */
  lemma Boundary(cfg: Config) returns (b: nat)
    requires cfg.Valid() && cfg.cells > 0 && !cfg.Safe()
    ensures b < cfg.cells < cfg.Total() && cfg.ranks >= 3 && cfg.cycles >= 1
    ensures cfg.Owner(b) == cfg.Owner(cfg.cells) == 0
    ensures forall g :: b <= g < cfg.cells + 1 ==> cfg.Owner(g) != cfg.ranks - 1
    ensures Owned(cfg, 0, cfg.cells) == Owned(cfg, 0, b) + 1
  {
    var n := cfg.cells;
    b := n - n % cfg.ranks;
    BoundaryOwners(cfg, b);
    WholeCycle(cfg);
    NoneBetween(cfg, 0, b, n);
    OwnedMonotone(cfg, 0, b + 1, n);
  }

  lemma TwoInFlight(cfg: Config, local: Local, s: State, q: nat, b: nat)
    requires Inv(cfg, local, s) && 0 < q < cfg.ranks && s.pos[q] == cfg.cells + 1 && s.taken[0][q] == Owned(cfg, 0, b)
    requires b < cfg.cells && cfg.Owner(b) == cfg.Owner(cfg.cells) == 0
    requires Owned(cfg, 0, cfg.cells) == Owned(cfg, 0, b) + 1
    ensures s.chan[0][q] == [Message(q, b, local(q, b)), Message(q, cfg.cells, local(q, cfg.cells))]
  {
    OnChannel(cfg, local, s, 0, q, b);
    OnChannel(cfg, local, s, 0, q, cfg.cells);
    assert Channel(cfg, local, s, 0, q);
  }

  /** Rank 0 then takes both for the first of the two cells. */
  lemma MismatchRun(cfg: Config, local: Local) returns (acts: seq<Action>, s: State, b: nat)
    requires cfg.Valid() && cfg.cells > 0 && !cfg.Safe()
    ensures cfg.ranks >= 3 && Reaches(cfg, local, acts, s) && Inv(cfg, local, s)
    ensures var n, q := cfg.cells, cfg.ranks - 1;
            && b < n && cfg.cycles >= 1 && cfg.Owner(b) == 0 && s.pos[0] == b && s.pos[q] == n + 1
            && s.got[0] == [Message(q, b, local(q, b)), Message(q, n, local(q, n))]
            && forall p :: 0 <= p < cfg.ranks ==> s.chan[0][p] == []
  {
    var q := cfg.ranks - 1;
    var acts0, s0;
    acts0, s0, b := TwoAhead(cfg, local);
    s := TwoRecv(cfg, local, s0, 0, q, q);
    acts := acts0 + [Recv(0, q), Recv(0, q)];
    RunAppend(cfg, local, Init(cfg), acts0, s0, [Recv(0, q), Recv(0, q)], s);
    InitInv(cfg, local);
    RunInv(cfg, local, Init(cfg), acts, s);
  }

  lemma Mismatch(cfg: Config, local: Local) returns (acts: seq<Action>, s: State)
    requires cfg.Valid() && cfg.cells > 0 && !cfg.Safe()
    ensures Reaches(cfg, local, acts, s) && !AllMatched(cfg, local, s)
  {
    var b;
    acts, s, b := MismatchRun(cfg, local);
    assert s.got[0][0].src == s.got[0][1].src;
    assert !Matched(cfg, local, 0, s.pos[0], s.got[0]);
  }

  lemma TwoSteps(cfg: Config, local: Local, s: State, a: Action, b: Action)
    requires cfg.Valid() && Shape(cfg, s) && Enabled(cfg, s, a)
    requires Enabled(cfg, Next(cfg, local, s, a), b)
    ensures Run(cfg, local, s, [a, b], Next(cfg, local, Next(cfg, local, s, a), b))
  {
    assert [a, b][1..] == [b] && [b][1..] == [];
  }

  /** Around the end of a cycle: cells b .. n-1 belong to ranks 0 .. rem-1, and so does
      cell n to rank 0; the last rank owns none of them. */
  lemma BoundaryOwners(cfg: Config, b: nat)
    requires cfg.ranks > 0 && cfg.cells > 0 && b == cfg.cells - cfg.cells % cfg.ranks
    requires cfg.cells % cfg.ranks > 0
    ensures cfg.Owner(b) == 0 && cfg.Owner(cfg.cells) == 0
    ensures forall g :: b <= g < cfg.cells ==> cfg.Owner(g) == g - b
  {
    var w, n := cfg.ranks, cfg.cells;
    forall g | b <= g < n ensures cfg.Owner(g) == g - b {
      UniqueRemainder(g, n / w, g - b, w);
      assert g % n == g;
    }
    assert n % n == 0;
  }

  lemma SafeMatches(cfg: Config, local: Local, acts: seq<Action>, s: State)
    requires cfg.Valid() && cfg.Safe() && Reaches(cfg, local, acts, s)
    ensures AllMatched(cfg, local, s)
  {
    InitExact(cfg, local);
    RunExact(cfg, local, Init(cfg), acts, s);
    ExactIsMatched(cfg, local, s);
  }

  /** Exact matching, both ways: in every run over a non-empty grid the receives of a cell
      take only messages sent for that cell, at most one per rank, if and only if there
      is one cycle, at most two ranks, or the ranks divide the grid. */
  lemma MatchingExactlyWhenSafe(cfg: Config, local: Local)
    requires cfg.Valid() && cfg.cells > 0
    ensures cfg.Safe() <==>
            forall acts, s :: Reaches(cfg, local, acts, s) ==> AllMatched(cfg, local, s)
  {
    if cfg.Safe() {
      forall acts, s | Reaches(cfg, local, acts, s) ensures AllMatched(cfg, local, s) {
        SafeMatches(cfg, local, acts, s);
      }
    } else {
      var acts, s := Mismatch(cfg, local);
    }
  }

  lemma ExactIsMatched(cfg: Config, local: Local, s: State)
    requires Exact(cfg, local, s)
    ensures AllMatched(cfg, local, s)
  {
    forall r | 0 <= r < cfg.ranks ensures Matched(cfg, local, r, s.pos[r], s.got[r]) {
      assert Receipts(cfg, local, s, r);
    }
    forall r, k | 0 <= r < cfg.ranks && 0 <= k < |s.noises[r]|
      ensures Matched(cfg, local, r, s.noises[r][k].cell, s.noises[r][k].operands)
    {
      assert Entries(cfg, local, s, r);
      assert EntryOk(cfg, local, r, k, s.noises[r][k]);
    }
  }
}
