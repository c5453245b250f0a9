/** When the result of the shuffle (mpi/main.c) depends on the schedule.  A cell's messages
    are folded in the order in which they arrive, so the operator decides, and across
    cycles the grid does too.  This module proves exactly when. */
module ShuffleOrder {
  import opened Shuffle
  import opened ShuffleMatching
  import opened ShuffleResult

  /** Every schedule leaves the same level for every cell, whatever the local values. */
  ghost predicate Deterministic(cfg: Config, add: Adder) {
    forall local, acts, s, acts', s', r: nat, k: nat, k': nat ::
      && Ends(cfg, local, acts, s) && Ends(cfg, local, acts', s')
      && SameCell(cfg, s, s', r, k, k') ==>
      Level(add, s.noises[r][k]) == Level(add, s'.noises[r][k'])
  }

  ghost predicate Ends(cfg: Config, local: Local, acts: seq<Action>, s: State) {
    cfg.Valid() && Reaches(cfg, local, acts, s) && Finished(cfg, s)
  }

  /** Entries k and k' of rank r are of one cell. */
  ghost predicate SameCell(cfg: Config, s: State, s': State, r: nat, k: nat, k': nat)
    requires Shape(cfg, s) && Shape(cfg, s')
  {
    r < cfg.ranks && k < |s.noises[r]| && k' < |s'.noises[r]| && s.noises[r][k].cell == s'.noises[r][k'].cell
  }

  // ----- what a run makes of the cell rank 0 stands on -----

  lemma {:induction false} NoisesGrow(cfg: Config, local: Local, s: State, acts: seq<Action>, t: State)
    requires Run(cfg, local, s, acts, t)
    ensures Shape(cfg, t) && s.noises[0] <= t.noises[0] && s.pos[0] <= t.pos[0]
    decreases |acts|
  {
    if acts != [] { NoisesGrow(cfg, local, Next(cfg, local, s, acts[0]), acts[1..], t); }
  }

  /** All that rank 0 can still receive is 0. */
  ghost predicate Quiet(cfg: Config, local: Local, s: State) {
    && cfg.Valid() && Shape(cfg, s)
    && (forall p, g: nat :: 0 < p < cfg.ranks && s.pos[p] <= g ==> local(p, g) == 0)
    && (forall p, i :: 0 <= p < cfg.ranks && 0 <= i < |s.chan[0][p]| ==> s.chan[0][p][i].value == 0)
  }

  /** The messages from n on carry 0. */
  ghost predicate ZeroFrom(ms: seq<Message>, n: nat) {
    forall i :: n <= i < |ms| ==> ms[i].value == 0
  }

  lemma QuietStep(cfg: Config, local: Local, s: State, a: Action)
    requires Quiet(cfg, local, s) && Enabled(cfg, s, a)
    ensures Quiet(cfg, local, Next(cfg, local, s, a))
  {}

  /** A cell that rank 0 stands on when all is quiet: its entry holds what was received
      for it before, then zeros. */
  lemma {:induction false} QuietEntry(cfg: Config, local: Local, s: State, acts: seq<Action>, t: State, n: nat)
    requires Quiet(cfg, local, s) && Run(cfg, local, s, acts, t) && Shape(cfg, t) && s.pos[0] < t.pos[0] && cfg.Owner(s.pos[0]) == 0
    requires n <= |s.got[0]| && ZeroFrom(s.got[0], n)
    ensures |s.noises[0]| < |t.noises[0]|
    ensures var e := t.noises[0][|s.noises[0]|];
            && e.cell == s.pos[0] && e.own == local(0, s.pos[0])
            && n <= |e.operands| && e.operands[..n] == s.got[0][..n] && ZeroFrom(e.operands, n)
    decreases |acts|
  {
    var a := acts[0];
    var s1 := Next(cfg, local, s, a);
    QuietStep(cfg, local, s, a);
    if a == Finish(0) {
      NoisesGrow(cfg, local, s1, acts[1..], t);
    } else {
      QuietEntry(cfg, local, s1, acts[1..], t, n);
    }
  }

  lemma {:induction false} ReduceZeros(add: Adder, v: int, ms: seq<Message>, n: nat)
    requires ZeroNeutral(add) && n <= |ms| && ZeroFrom(ms, n)
    ensures Reduce(add, v, ms) == Reduce(add, v, ms[..n])
    decreases |ms|
  {
    if n < |ms| {
      var u := ms[..|ms| - 1];
      ReduceZeros(add, v, u, n);
      assert u[..n] == ms[..n];
    } else {
      assert ms[..n] == ms;
    }
  }

  lemma ReduceTwo(add: Adder, v: int, m1: Message, m2: Message)
    ensures Reduce(add, v, [m1, m2]) == add(add(v, m1.value), m2.value)
  {
    var ms := [m1, m2];
    var one := [m1];
    assert ms[..1] == one && one[..0] == [];
    assert Reduce(add, v, one) == add(v, m1.value);
  }

  /** A run to a quiet state can be finished; the level of rank 0's cell is then the fold of
      what it had received. */
  lemma FinishQuiet(cfg: Config, local: Local, acts: seq<Action>, s: State, add: Adder)
      returns (acts': seq<Action>, t: State)
    requires Inv(cfg, local, s) && Reaches(cfg, local, acts, s) && Quiet(cfg, local, s)
    requires s.pos[0] < cfg.Total() && cfg.Owner(s.pos[0]) == 0 && ZeroNeutral(add)
    ensures Ends(cfg, local, acts', t) && |s.noises[0]| < |t.noises[0]|
    ensures var e := t.noises[0][|s.noises[0]|];
            e.cell == s.pos[0] && Level(add, e) == Reduce(add, local(0, s.pos[0]), s.got[0])
  {
    var rest;
    rest, t := Completes(cfg, local, s);
    acts' := acts + rest;
    RunAppend(cfg, local, Init(cfg), acts, s, rest, t);
    QuietEntry(cfg, local, s, rest, t, |s.got[0]|);
    var e := t.noises[0][|s.noises[0]|];
    assert s.got[0][..|s.got[0]|] == s.got[0];
    ReduceZeros(add, e.own, e.operands, |s.got[0]|);
  }

  // ----- two orders of arrival -----

  /** Ranks 1 and 2 send their values for cell 0, and rank 0 takes them in either order. */
  lemma Arrivals(cfg: Config, local: Local, q1: nat, q2: nat) returns (acts: seq<Action>, s: State)
    requires cfg.ranks >= 3 && cfg.Total() > 0 && cfg.Owner(0) == 0 && 1 <= q1 <= 2 && q2 == 3 - q1
    ensures Reaches(cfg, local, acts, s) && Inv(cfg, local, s)
    ensures s.pos[0] == 0 && s.noises[0] == [] && forall p :: 0 < p < cfg.ranks ==> s.pos[p] == if p <= 2 then 1 else 0
    ensures s.got[0] == [Message(q1, 0, local(q1, 0)), Message(q2, 0, local(q2, 0))]
    ensures forall p :: 0 <= p < cfg.ranks ==> s.chan[0][p] == []
  {
    var acts0, s0 := TwoSends(cfg, local);
    s := TwoRecv(cfg, local, s0, 0, q1, q2);
    acts := acts0 + [Recv(0, q1), Recv(0, q2)];
    RunAppend(cfg, local, Init(cfg), acts0, s0, [Recv(0, q1), Recv(0, q2)], s);
    InitInv(cfg, local);
    RunInv(cfg, local, Init(cfg), acts, s);
  }

  lemma TwoSends(cfg: Config, local: Local) returns (acts: seq<Action>, s: State)
    requires cfg.ranks >= 3 && cfg.Total() > 0 && cfg.Owner(0) == 0
    ensures Reaches(cfg, local, acts, s) && Shape(cfg, s) && s.got[0] == [] && s.noises[0] == []
    ensures forall p :: 0 <= p < cfg.ranks ==> s.pos[p] == if 1 <= p <= 2 then 1 else 0
    ensures forall p :: 0 <= p < cfg.ranks ==>
              s.chan[0][p] == if 1 <= p <= 2 then [Message(p, 0, local(p, 0))] else []
  {
    InitInv(cfg, local);
    var acts1, s1 := RunAhead(cfg, local, Init(cfg), 1, 1);
    var acts2;
    acts2, s := RunAhead(cfg, local, s1, 2, 1);
    acts := acts1 + acts2;
    RunAppend(cfg, local, Init(cfg), acts1, s1, acts2, s);
    FirstMessage(cfg, local, s, 1);
    FirstMessage(cfg, local, s, 2);
  }

  lemma FirstMessage(cfg: Config, local: Local, s: State, q: nat)
    requires Inv(cfg, local, s) && 0 < q < cfg.ranks && s.pos[q] == 1 && s.taken[0][q] == 0 && cfg.Owner(0) == 0
    ensures s.chan[0][q] == [Message(q, 0, local(q, 0))]
  {
    assert Channel(cfg, local, s, 0, q);
    assert Sent(cfg, local, q, 0, 0) == [];
  }

  /** Rank 0 has v, rank 1 has a and rank 2 has b for cell 0; everything else is 0. */
  ghost function Three(v: int, a: int, b: int): Local {
    (r: nat, g: nat) => if g > 0 then 0 else if r == 0 then v else if r == 1 then a else if r == 2 then b else 0
  }

  /** A finished run in which the messages for cell 0 arrived in the given order. */
  lemma OrderedRun(cfg: Config, local: Local, q1: nat, q2: nat, add: Adder) returns (acts: seq<Action>, s: State)
    requires cfg.ranks >= 3 && cfg.Total() > 0 && cfg.Owner(0) == 0 && 1 <= q1 <= 2 && q2 == 3 - q1 && ZeroNeutral(add)
    requires forall p, g: nat :: 0 < p < cfg.ranks && (g > 0 || p > 2) ==> local(p, g) == 0
    ensures Ends(cfg, local, acts, s) && |s.noises[0]| > 0 && s.noises[0][0].cell == 0
    ensures Level(add, s.noises[0][0]) == add(add(local(0, 0), local(q1, 0)), local(q2, 0))
  {
    var acts0, s0 := Arrivals(cfg, local, q1, q2);
    acts, s := FinishQuiet(cfg, local, acts0, s0, add);
    ReduceTwo(add, local(0, 0), s0.got[0][0], s0.got[0][1]);
  }

  lemma OrderMatters(cfg: Config, add: Adder, v: int, a: int, b: int)
    requires cfg.ranks >= 3 && cfg.Total() > 0 && cfg.Owner(0) == 0 && ZeroNeutral(add)
    requires Deterministic(cfg, add)
    ensures Swaps(add, v, a, b)
  {
    var local := Three(v, a, b);
    var acts, s := OrderedRun(cfg, local, 1, 2, add);
    var acts', s' := OrderedRun(cfg, local, 2, 1, add);
    assert SameCell(cfg, s, s', 0, 0, 0);
  }

  // ----- a message of another cycle -----

  /** Rank q has 1 for cell n; everything else is 0. */
  ghost function One(q: nat, n: nat): Local {
    (r: nat, g: nat) => if r == q && g == n then 1 else 0
  }

  /** If the last rank has 1 for the first cell of the second cycle and everything else is 0,
      some run leaves 1 for a cell of the first cycle. */
  lemma BadRun(cfg: Config, local: Local, add: Adder) returns (acts: seq<Action>, s: State, b: nat, k: nat)
    requires cfg.Valid() && cfg.cells > 0 && !cfg.Safe() && ZeroNeutral(add)
    requires forall r: nat, g: nat :: local(r, g) == if r == cfg.ranks - 1 && g == cfg.cells then 1 else 0
    ensures cfg.ranks >= 3 && b < cfg.cells && cfg.cycles >= 1 && cfg.Owner(b) == 0
    ensures Ends(cfg, local, acts, s) && k < |s.noises[0]|
    ensures s.noises[0][k].cell == b && Level(add, s.noises[0][k]) == 1
  {
    var acts0, s0;
    acts0, s0, b := MismatchRun(cfg, local);
    acts, s := FinishQuiet(cfg, local, acts0, s0, add);
    k := |s0.noises[0]|;
    ReduceTwo(add, 0, s0.got[0][0], s0.got[0][1]);
  }

  /** A schedule that finishes cell b before any rank goes on: all its messages are its own. */
  lemma GoodRun(cfg: Config, local: Local, b: nat, add: Adder) returns (acts: seq<Action>, s: State, k: nat)
    requires cfg.Valid() && b < cfg.cells && cfg.cycles >= 1 && cfg.Owner(b) == 0 && ZeroNeutral(add)
    requires forall p: nat :: local(p, b) == 0
    ensures Ends(cfg, local, acts, s) && k < |s.noises[0]|
    ensures s.noises[0][k].cell == b && Level(add, s.noises[0][k]) == 0
  {
    var small := Config(cfg.ranks, b + 1, 1);
    SmallStarts(cfg, b + 1);
    assert small.Owner(b) == cfg.Owner(b) by { assert small.Total() == b + 1; }
    var acts0, s0;
    acts0, s0, k := LockStep(small, local, b);
    acts, s := GoesOn(small, cfg, local, acts0, s0);
    ZeroLevel(add, s.noises[0][k]);
  }

  lemma ZeroLevel(add: Adder, e: Entry)
    requires ZeroNeutral(add) && e.own == 0 && ZeroFrom(e.operands, 0)
    ensures Level(add, e) == 0
  {
    ReduceZeros(add, e.own, e.operands, 0);
  }

  /** A run over the first cells of a walk, finished: its entries stay. */
  lemma GoesOn(small: Config, cfg: Config, local: Local, acts0: seq<Action>, s0: State)
      returns (acts: seq<Action>, s: State)
    requires StartOf(small, cfg) && Reaches(small, local, acts0, s0) && Shape(cfg, s0)
    ensures Ends(cfg, local, acts, s) && s0.noises[0] <= s.noises[0]
  {
    RunWidens(small, cfg, local, Init(small), acts0, s0);
    assert Init(small) == Init(cfg);
    InitInv(cfg, local);
    RunInv(cfg, local, Init(cfg), acts0, s0);
    var rest;
    rest, s := Completes(cfg, local, s0);
    acts := acts0 + rest;
    RunAppend(cfg, local, Init(cfg), acts0, s0, rest, s);
    NoisesGrow(cfg, local, s0, rest, s);
  }

  /** The last cell of a walk over b + 1 cells, finished. */
  lemma LockStep(cfg: Config, local: Local, b: nat) returns (acts: seq<Action>, s: State, k: nat)
    requires cfg.Valid() && cfg.cells == b + 1 && cfg.cycles == 1 && cfg.Owner(b) == 0
    requires forall p: nat :: local(p, b) == 0
    ensures Reaches(cfg, local, acts, s) && Shape(cfg, s) && k < |s.noises[0]|
    ensures var e := s.noises[0][k]; e.cell == b && e.own == 0 && ZeroFrom(e.operands, 0)
  {
    var acts0, s0 := CompleteSmall(cfg, local, b);
    var rest;
    rest, s := Completes(cfg, local, s0);
    acts := acts0 + rest;
    RunAppend(cfg, local, Init(cfg), acts0, s0, rest, s);
    SafeMatches(cfg, local, acts, s);
    assert cfg.Total() == b + 1;
    EntryMade(cfg, local, s0, rest, s);
    k := |s0.noises[0]|;
    assert Matched(cfg, local, 0, b, s.noises[0][k].operands);
  }

  /** The cell rank 0 stands on becomes its next entry. */
  lemma {:induction false} EntryMade(cfg: Config, local: Local, s: State, acts: seq<Action>, t: State)
    requires Run(cfg, local, s, acts, t) && Shape(cfg, t) && s.pos[0] < t.pos[0] && cfg.Owner(s.pos[0]) == 0
    ensures |s.noises[0]| < |t.noises[0]|
    ensures var e := t.noises[0][|s.noises[0]|]; e.cell == s.pos[0] && e.own == local(0, s.pos[0])
    decreases |acts|
  {
    var s1 := Next(cfg, local, s, acts[0]);
    if acts[0] == Finish(0) {
      NoisesGrow(cfg, local, s1, acts[1..], t);
    } else {
      EntryMade(cfg, local, s1, acts[1..], t);
    }
  }

  lemma CyclesMix(cfg: Config, add: Adder)
    requires cfg.Valid() && cfg.cells > 0 && !cfg.Safe() && ZeroNeutral(add)
    ensures !Deterministic(cfg, add)
  {
    var local := One(cfg.ranks - 1, cfg.cells);
    var acts, s, b, k := BadRun(cfg, local, add);
    var acts', s', k' := GoodRun(cfg, local, b, add);
    assert SameCell(cfg, s, s', 0, k, k');
  }

  // ----- exactly when -----

  /** With at most two ranks a cell has at most one message. */
  lemma FewRanks(cfg: Config, local: Local, acts: seq<Action>, s: State, add: Adder, r: nat, k: nat)
    requires cfg.ranks <= 2 && Ends(cfg, local, acts, s) && r < cfg.ranks && k < |s.noises[r]|
    ensures Level(add, s.noises[r][k]) == OwnFold(add, local, r, s.noises[r][k].cell, cfg.ranks)
  {
    WalkResult(cfg, local, acts, s, r);
    var e := s.noises[r][k];
    assert EntryOk(cfg, local, r, k, e);
    if cfg.ranks == 2 { OneOther(add, local, r, e); } else { NoOther(add, local, e); }
  }

  lemma NoOther(add: Adder, local: Local, e: Entry)
    requires e.operands == [] && e.own == local(0, e.cell)
    ensures Level(add, e) == OwnFold(add, local, 0, e.cell, 1)
  {}

  lemma OneOther(add: Adder, local: Local, r: nat, e: Entry)
    requires r < 2 && |e.operands| == 1 && e.own == local(r, e.cell)
    requires e.operands[0] == Message(1 - r, e.cell, local(1 - r, e.cell))
    ensures Level(add, e) == OwnFold(add, local, r, e.cell, 2)
  {
    var c, x := e.cell, e.operands[0].value;
    assert e.operands[..|e.operands| - 1] == [] && Reduce(add, e.own, []) == e.own;
    assert Level(add, e) == add(e.own, x);
    assert OwnFold(add, local, r, c, 0) == e.own;
    if r == 0 {
      assert OwnFold(add, local, r, c, 1) == e.own;
      assert OwnFold(add, local, r, c, 2) == add(OwnFold(add, local, r, c, 1), local(1, c));
    } else {
      assert OwnFold(add, local, r, c, 1) == add(OwnFold(add, local, r, c, 0), local(0, c));
      assert OwnFold(add, local, r, c, 2) == OwnFold(add, local, r, c, 1);
    }
  }

  /** For a grid that is not empty and an operator with 0 neutral, as sum_noises is: every
      schedule leaves the same levels, whatever the local values, if and only if there are
      at most two ranks, or the configuration is safe and the operator takes two operands
      in either order. */
  lemma DeterministicExactlyWhen(cfg: Config, add: Adder)
    requires cfg.Valid() && cfg.cells > 0 && cfg.cycles > 0 && ZeroNeutral(add)
    ensures Deterministic(cfg, add) <==> cfg.ranks <= 2 || (cfg.Safe() && RightCommutes(add))
  {
    if cfg.ranks <= 2 || (cfg.Safe() && RightCommutes(add)) {
      Determined(cfg, add);
    } else if !cfg.Safe() {
      CyclesMix(cfg, add);
    } else {
      WholeCycle(cfg);
      if Deterministic(cfg, add) {
        forall v, a, b ensures Swaps(add, v, a, b) { OrderMatters(cfg, add, v, a, b); }
      }
    }
  }

  lemma Determined(cfg: Config, add: Adder)
    requires cfg.ranks <= 2 || (cfg.Safe() && RightCommutes(add))
    ensures Deterministic(cfg, add)
  {
    forall local, acts, s, acts', s', r: nat, k: nat, k': nat |
      Ends(cfg, local, acts, s) && Ends(cfg, local, acts', s') && SameCell(cfg, s, s', r, k, k')
      ensures Level(add, s.noises[r][k]) == Level(add, s'.noises[r][k'])
    {
      if cfg.ranks <= 2 {
        FewRanks(cfg, local, acts, s, add, r, k);
        FewRanks(cfg, local, acts', s', add, r, k');
      } else {
        ScheduleFree(cfg, local, acts, s, add, r, k);
        ScheduleFree(cfg, local, acts', s', add, r, k');
      }
    }
  }

  /** sum_noises itself: round(10 log10(10^(a/10) + 10^(b/10))) is 4 at (1, 1), 7 at (4, 3),
      5 at (1, 3) and 6 at (5, 1).  So with three ranks or more, own level 1 and messages 1
      and 3, the level is 7 or 6, as the schedule has it. */
  lemma RoundingShows(cfg: Config, add: Adder)
    requires cfg.ranks >= 3 && cfg.cells > 0 && cfg.cycles > 0 && ZeroNeutral(add)
    requires add(1, 1) == 4 && add(4, 3) == 7 && add(1, 3) == 5 && add(5, 1) == 6
    ensures !Deterministic(cfg, add)
  {
    DeterministicExactlyWhen(cfg, add);
    assert !Swaps(add, 1, 1, 3);
  }
}
