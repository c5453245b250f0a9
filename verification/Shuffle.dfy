/** The shuffle of mpi/main.c: `ranks` processes walk the same sequence of cells.
    Cell g is owned by rank (g mod cells) mod ranks.  A rank that does not own the
    cell it stands on sends its local noise to the owner without blocking; the owner
    blocks for ranks - 1 receives from any source and then moves on.

    The protocol is a transition system.  MPI delivers the messages of one pair of
    ranks in order and says nothing across pairs, so a channel is a queue per
    (receiver, sender) and a receive may take the head of any of its channels. */
module Shuffle {
  import opened Arith

  /** One walk over `cells` cells is a cycle of the simulation; `cycles` of them
      follow each other without a barrier. */
  datatype Config = Config(ranks: nat, cells: nat, cycles: nat) {
    ghost predicate Valid() { ranks > 0 }

    function Total(): nat { cells * cycles }

    function Owner(g: nat): (r: nat)
      requires ranks > 0
    {
      if cells == 0 then 0 else (g % cells) % ranks
    }

    /** The condition under which every receive is matched with the right cell. */
    predicate Safe() { cycles <= 1 || ranks <= 2 || cells % ranks == 0 }
  }

  /** What travels is `value`; `src` and `cell` only identify the message here. */
  datatype Message = Message(src: nat, cell: nat, value: int)

  /** An entry of my_noises: the cell, the messages reduced into it in arrival order. */
  datatype Entry = Entry(cell: nat, own: int, operands: seq<Message>)

  /** pos[r]: the cell rank r stands on.  got[r]: what it received for that cell.
      chan[r][s]: messages in flight from s to r.  taken[r][s]: how many r received
      from s so far.  noises[r]: the finished entries of rank r. */
  datatype State = State(pos: seq<nat>, got: seq<seq<Message>>,
                         chan: seq<seq<seq<Message>>>, taken: seq<seq<nat>>,
                         noises: seq<seq<Entry>>)

  datatype Action = Send(r: nat) | Recv(r: nat, src: nat) | Finish(r: nat)

  type Local = (nat, nat) -> int

  ghost predicate Shape(cfg: Config, s: State) {
    && |s.pos| == |s.got| == |s.chan| == |s.taken| == |s.noises| == cfg.ranks
    && (forall r :: 0 <= r < cfg.ranks ==> |s.chan[r]| == cfg.ranks)
    && (forall r :: 0 <= r < cfg.ranks ==> |s.taken[r]| == cfg.ranks)
  }

  function Init(cfg: Config): (s: State)
    ensures Shape(cfg, s)
  {
    State(seq(cfg.ranks, _ => 0), seq(cfg.ranks, _ => []),
          seq(cfg.ranks, _ => seq(cfg.ranks, _ => [])),
          seq(cfg.ranks, _ => seq(cfg.ranks, _ => 0)),
          seq(cfg.ranks, _ => []))
  }

  ghost predicate Enabled(cfg: Config, s: State, a: Action)
    requires cfg.Valid() && Shape(cfg, s)
  {
    && a.r < cfg.ranks
    && s.pos[a.r] < cfg.Total()
    && match a
       case Send(r) => cfg.Owner(s.pos[r]) != r
       case Recv(r, src) =>
         && cfg.Owner(s.pos[r]) == r
         && |s.got[r]| < cfg.ranks - 1
         && src < cfg.ranks
         && s.chan[r][src] != []
       case Finish(r) => cfg.Owner(s.pos[r]) == r && |s.got[r]| == cfg.ranks - 1
  }

  ghost function Next(cfg: Config, local: Local, s: State, a: Action): (s': State)
    requires cfg.Valid() && Shape(cfg, s) && Enabled(cfg, s, a)
    ensures Shape(cfg, s')
  {
    match a
    case Send(r) =>
      var g := s.pos[r];
      var o := cfg.Owner(g);
      s.(pos := s.pos[r := g + 1],
         chan := s.chan[o := s.chan[o][r := s.chan[o][r] + [Message(r, g, local(r, g))]]])
    case Recv(r, src) =>
      s.(got := s.got[r := s.got[r] + [s.chan[r][src][0]]],
         chan := s.chan[r := s.chan[r][src := s.chan[r][src][1..]]],
         taken := s.taken[r := s.taken[r][src := s.taken[r][src] + 1]])
    case Finish(r) =>
      var g := s.pos[r];
      s.(pos := s.pos[r := g + 1], got := s.got[r := []],
         noises := s.noises[r := s.noises[r] + [Entry(g, local(r, g), s.got[r])]])
  }

  /** The actions `acts` are a run of the protocol from `s` to `s'`. */
  ghost predicate Run(cfg: Config, local: Local, s: State, acts: seq<Action>, s': State)
    decreases |acts|
  {
    && cfg.Valid() && Shape(cfg, s)
    && if acts == [] then s == s'
       else Enabled(cfg, s, acts[0]) && Run(cfg, local, Next(cfg, local, s, acts[0]), acts[1..], s')
  }

  /** The runs of a simulation: they start on cell 0 with an empty network. */
  ghost predicate Reaches(cfg: Config, local: Local, acts: seq<Action>, s: State) {
    Run(cfg, local, Init(cfg), acts, s)
  }

  ghost predicate Finished(cfg: Config, s: State) {
    Shape(cfg, s) && forall r :: 0 <= r < cfg.ranks ==> s.pos[r] == cfg.Total()
  }

  /** The matching the program relies on: whatever a rank has received for the cell it
      stands on was sent for that cell, at most once per sender, never by itself. */
  ghost predicate Matched(cfg: Config, local: Local, r: nat, g: nat, ms: seq<Message>) {
    && (forall i :: 0 <= i < |ms| ==>
          ms[i].src < cfg.ranks && ms[i].src != r && ms[i] == Message(ms[i].src, g, local(ms[i].src, g)))
    && (forall i, j :: 0 <= i < j < |ms| ==> ms[i].src != ms[j].src)
  }

  ghost predicate AllMatched(cfg: Config, local: Local, s: State) {
    && Shape(cfg, s)
    && (forall r :: 0 <= r < cfg.ranks ==> Matched(cfg, local, r, s.pos[r], s.got[r]))
    && (forall r, k :: 0 <= r < cfg.ranks && 0 <= k < |s.noises[r]| ==>
          Matched(cfg, local, r, s.noises[r][k].cell, s.noises[r][k].operands))
  }

  // ----- counting owned cells -----

  /** The number of cells below p that rank r owns. */
  ghost function Owned(cfg: Config, r: nat, p: nat): nat
    requires cfg.Valid()
  {
    if p == 0 then 0 else Owned(cfg, r, p - 1) + if cfg.Owner(p - 1) == r then 1 else 0
  }

  /** Everything `src` has sent to `r` once `src` stands on cell p. */
  ghost function Sent(cfg: Config, local: Local, src: nat, r: nat, p: nat): (ms: seq<Message>)
    requires cfg.Valid()
    ensures |ms| == Owned(cfg, r, p)
  {
    if p == 0 then []
    else Sent(cfg, local, src, r, p - 1)
         + if cfg.Owner(p - 1) == r then [Message(src, p - 1, local(src, p - 1))] else []
  }

  lemma {:induction false} OwnedMonotone(cfg: Config, r: nat, p: nat, q: nat)
    requires cfg.Valid() && p <= q
    ensures Owned(cfg, r, p) <= Owned(cfg, r, q)
    ensures cfg.Owner(p) == r && p < q ==> Owned(cfg, r, p) < Owned(cfg, r, q)
    decreases q - p
  {
    if p < q { OwnedMonotone(cfg, r, p, q - 1); }
  }

  /** The message in position Owned(r, g) of a channel is the one for cell g. */
  lemma {:induction false} SentAt(cfg: Config, local: Local, src: nat, r: nat, g: nat, p: nat)
    requires cfg.Valid() && cfg.Owner(g) == r && g < p
    ensures Owned(cfg, r, g) < |Sent(cfg, local, src, r, p)|
    ensures Sent(cfg, local, src, r, p)[Owned(cfg, r, g)] == Message(src, g, local(src, g))
    decreases p
  {
    OwnedMonotone(cfg, r, g, p);
    if g + 1 < p { SentAt(cfg, local, src, r, g, p - 1); }
  }

  // ----- sums of receive counters -----

  ghost function Sum(t: seq<nat>): nat {
    if t == [] then 0 else Sum(t[..|t| - 1]) + t[|t| - 1]
  }

  lemma {:induction false} SumUpdate(t: seq<nat>, i: nat)
    requires i < |t|
    ensures Sum(t[i := t[i] + 1]) == Sum(t) + 1
  {
    var u := t[i := t[i] + 1];
    if i == |t| - 1 {
      assert u[..|t| - 1] == t[..|t| - 1];
    } else {
      assert u[..|t| - 1] == t[..|t| - 1][i := t[i] + 1];
      SumUpdate(t[..|t| - 1], i);
    }
  }

  lemma {:induction false} SumZero(t: seq<nat>)
    requires forall i :: 0 <= i < |t| ==> t[i] == 0
    ensures Sum(t) == 0
  {
    if t != [] { SumZero(t[..|t| - 1]); }
  }

  /** n - 1 counters bounded by b (entry r stays 0) sum to at most (n - 1) * b, with
      equality only when every one of them is b. */
  lemma {:induction false} SumBound(t: seq<nat>, r: nat, b: nat)
    requires forall i :: 0 <= i < |t| && i != r ==> t[i] <= b
    requires r < |t| ==> t[r] == 0
    ensures Sum(t) <= b * (if r < |t| then |t| - 1 else |t|)
    ensures (exists i :: 0 <= i < |t| && i != r && t[i] < b) ==>
            Sum(t) < b * (if r < |t| then |t| - 1 else |t|)
  {
    if t != [] {
      var u, n := t[..|t| - 1], |t| - 1;
      SumBound(u, r, b);
      assert Sum(t) == Sum(u) + t[n];
      forall i | 0 <= i < |t| && i != r && t[i] < b
        ensures i == n || (0 <= i < |u| && u[i] < b)
      {}
      assert r < |u| ==> b * (|t| - 1) == b * (|u| - 1) + b;
      assert r > n ==> b * |t| == b * |u| + b;
    }
  }

  /** Conversely, when they sum to less than (n - 1) * b one of them is below b. */
  lemma {:induction false} SumBelow(t: seq<nat>, r: nat, b: nat) returns (i: nat)
    requires r < |t| && Sum(t) < (|t| - 1) * b
    ensures i < |t| && i != r && t[i] < b
  {
    if j :| 0 <= j < |t| && j != r && t[j] < b {
      i := j;
    } else {
      SumAtLeast(t, r, b);
      assert false;
    }
  }

  lemma {:induction false} SumAtLeast(t: seq<nat>, r: nat, b: nat)
    requires forall i :: 0 <= i < |t| && i != r ==> t[i] >= b
    ensures Sum(t) >= b * (if r < |t| then |t| - 1 else |t|)
  {
    if t != [] {
      var u, n := t[..|t| - 1], |t| - 1;
      SumAtLeast(u, r, b);
      assert r < n ==> b * (|t| - 1) == b * (|u| - 1) + b;
      assert r > n ==> b * |t| == b * |u| + b;
    }
  }

  // ----- the invariant of every run, for every configuration -----

  ghost predicate Channel(cfg: Config, local: Local, s: State, r: nat, src: nat)
    requires cfg.Valid() && Shape(cfg, s) && r < cfg.ranks && src < cfg.ranks
  {
    if r == src then s.taken[r][src] == 0 && s.chan[r][src] == []
    else
      && s.taken[r][src] <= Owned(cfg, r, s.pos[src])
      && s.chan[r][src] == Sent(cfg, local, src, r, s.pos[src])[s.taken[r][src]..]
  }

  ghost predicate Counted(cfg: Config, s: State, r: nat)
    requires cfg.Valid() && Shape(cfg, s) && r < cfg.ranks
  {
    && s.pos[r] <= cfg.Total()
    && |s.got[r]| < cfg.ranks
    && (s.got[r] != [] ==> s.pos[r] < cfg.Total() && cfg.Owner(s.pos[r]) == r)
    && Sum(s.taken[r]) == (cfg.ranks - 1) * Owned(cfg, r, s.pos[r]) + |s.got[r]|
  }

  ghost predicate Inv(cfg: Config, local: Local, s: State) {
    && cfg.Valid() && Shape(cfg, s)
    && (forall r, src :: 0 <= r < cfg.ranks && 0 <= src < cfg.ranks ==> Channel(cfg, local, s, r, src))
    && (forall r :: 0 <= r < cfg.ranks ==> Counted(cfg, s, r))
  }

  lemma InitInv(cfg: Config, local: Local)
    requires cfg.Valid()
    ensures Inv(cfg, local, Init(cfg))
  {
    var s := Init(cfg);
    forall r | 0 <= r < cfg.ranks ensures Counted(cfg, s, r) { SumZero(s.taken[r]); }
  }

  lemma SendInv(cfg: Config, local: Local, s: State, r: nat)
    requires Inv(cfg, local, s) && Enabled(cfg, s, Send(r))
    ensures Inv(cfg, local, Next(cfg, local, s, Send(r)))
  {
    var s' := Next(cfg, local, s, Send(r));
    forall d, src | 0 <= d < cfg.ranks && 0 <= src < cfg.ranks
      ensures Channel(cfg, local, s', d, src)
    {
      assert Channel(cfg, local, s, d, src);
    }
    forall d | 0 <= d < cfg.ranks ensures Counted(cfg, s', d) { assert Counted(cfg, s, d); }
  }

  lemma RecvInv(cfg: Config, local: Local, s: State, r: nat, src: nat)
    requires Inv(cfg, local, s) && Enabled(cfg, s, Recv(r, src))
    ensures Inv(cfg, local, Next(cfg, local, s, Recv(r, src)))
  {
    var s' := Next(cfg, local, s, Recv(r, src));
    assert Channel(cfg, local, s, r, src);
    forall d, q | 0 <= d < cfg.ranks && 0 <= q < cfg.ranks
      ensures Channel(cfg, local, s', d, q)
    {
      assert Channel(cfg, local, s, d, q);
    }
    SumUpdate(s.taken[r], src);
    forall d | 0 <= d < cfg.ranks ensures Counted(cfg, s', d) { assert Counted(cfg, s, d); }
  }

  lemma FinishInv(cfg: Config, local: Local, s: State, r: nat)
    requires Inv(cfg, local, s) && Enabled(cfg, s, Finish(r))
    ensures Inv(cfg, local, Next(cfg, local, s, Finish(r)))
  {
    var s' := Next(cfg, local, s, Finish(r));
    forall d, q | 0 <= d < cfg.ranks && 0 <= q < cfg.ranks
      ensures Channel(cfg, local, s', d, q)
    {
      assert Channel(cfg, local, s, d, q);
    }
    forall d | 0 <= d < cfg.ranks ensures Counted(cfg, s', d) { FinishCounted(cfg, local, s, r, d); }
  }

  lemma FinishCounted(cfg: Config, local: Local, s: State, r: nat, d: nat)
    requires Inv(cfg, local, s) && Enabled(cfg, s, Finish(r)) && d < cfg.ranks
    ensures Counted(cfg, Next(cfg, local, s, Finish(r)), d)
  {
    assert Counted(cfg, s, d);
    if d == r { MulNext(cfg.ranks - 1, Owned(cfg, r, s.pos[r])); }
  }

  lemma StepInv(cfg: Config, local: Local, s: State, a: Action)
    requires Inv(cfg, local, s) && Enabled(cfg, s, a)
    ensures Inv(cfg, local, Next(cfg, local, s, a))
  {
    match a
    case Send(r) => SendInv(cfg, local, s, r);
    case Recv(r, src) => RecvInv(cfg, local, s, r, src);
    case Finish(r) => FinishInv(cfg, local, s, r);
  }

  lemma {:induction false} RunInv(cfg: Config, local: Local, s: State, acts: seq<Action>, s': State)
    requires Inv(cfg, local, s) && Run(cfg, local, s, acts, s')
    ensures Inv(cfg, local, s')
    decreases |acts|
  {
    if acts != [] {
      StepInv(cfg, local, s, acts[0]);
      RunInv(cfg, local, Next(cfg, local, s, acts[0]), acts[1..], s');
    }
  }

  // ----- no deadlock, termination, an empty network at the end -----

  lemma {:induction false} Slowest(pos: seq<nat>) returns (r: nat)
    requires pos != []
    ensures r < |pos| && forall q :: 0 <= q < |pos| ==> pos[r] <= pos[q]
  {
    r := 0;
    if |pos| > 1 {
      r := Slowest(pos[..|pos| - 1]);
      assert forall q :: 0 <= q < |pos| - 1 ==> pos[..|pos| - 1][q] == pos[q];
      if pos[|pos| - 1] < pos[r] { r := |pos| - 1; }
    }
  }

  /** No deadlock, in any configuration: an unfinished state has an enabled step. */
  lemma NoDeadlock(cfg: Config, local: Local, s: State) returns (a: Action)
    requires Inv(cfg, local, s) && !Finished(cfg, s)
    ensures Enabled(cfg, s, a)
  {
    var r := Slowest(s.pos);
    var c := s.pos[r];
    assert Counted(cfg, s, r);
    assert c < cfg.Total() by {
      var q :| 0 <= q < cfg.ranks && s.pos[q] != cfg.Total();
      assert Counted(cfg, s, q);
    }
    if cfg.Owner(c) != r {
      a := Send(r);
    } else if |s.got[r]| == cfg.ranks - 1 {
      a := Finish(r);
    } else if q :| 0 <= q < cfg.ranks && q != r && s.pos[q] == c {
      a := Send(q);
    } else {
      var w, b := cfg.ranks - 1, Owned(cfg, r, c) + 1;
      assert w * b == w * (b - 1) + w;
      var q := SumBelow(s.taken[r], r, b);
      assert Channel(cfg, local, s, r, q);
      OwnedMonotone(cfg, r, c, s.pos[q]);
      a := Recv(r, q);
    }
  }

  /** Work left: every step makes it smaller. */
  ghost function Measure(cfg: Config, s: State, n: nat): int
    requires Shape(cfg, s) && n <= cfg.ranks
  {
    if n == 0 then 0
    else Measure(cfg, s, n - 1) + Work(cfg, s.pos[n - 1], |s.got[n - 1]|)
  }

  ghost function Work(cfg: Config, p: nat, received: nat): int {
    (cfg.Total() - p) * (cfg.ranks + 1) - received
  }

  lemma {:induction false} MeasureOther(cfg: Config, s: State, s': State, r: nat, n: nat)
    requires Shape(cfg, s) && Shape(cfg, s') && n <= cfg.ranks
    requires forall q :: 0 <= q < n && q != r ==> s.pos[q] == s'.pos[q] && |s.got[q]| == |s'.got[q]|
    ensures Measure(cfg, s', n) - Measure(cfg, s, n) ==
            if r < n then Work(cfg, s'.pos[r], |s'.got[r]|) - Work(cfg, s.pos[r], |s.got[r]|) else 0
  {
    if n > 0 { MeasureOther(cfg, s, s', r, n - 1); }
  }

  lemma WorkShrinks(cfg: Config, p: nat, received: nat, received': nat)
    requires received <= cfg.ranks
    ensures Work(cfg, p + 1, received') < Work(cfg, p, received)
    ensures p <= cfg.Total() && (p == cfg.Total() ==> received == 0) ==> Work(cfg, p, received) >= 0
  {
    var k: int, w: int := cfg.Total() - p, cfg.ranks + 1;
    assert (k - 1) * w == k * w - w;
    if k > 0 { assert k * w >= w; }
  }

  lemma StepDecreases(cfg: Config, local: Local, s: State, a: Action)
    requires Inv(cfg, local, s) && Enabled(cfg, s, a)
    ensures Measure(cfg, Next(cfg, local, s, a), cfg.ranks) < Measure(cfg, s, cfg.ranks)
  {
    assert Counted(cfg, s, a.r);
    WorkShrinks(cfg, s.pos[a.r], |s.got[a.r]|, 0);
    MeasureOther(cfg, s, Next(cfg, local, s, a), a.r, cfg.ranks);
  }

  lemma {:induction false} MeasureNonNegative(cfg: Config, local: Local, s: State, n: nat)
    requires Inv(cfg, local, s) && n <= cfg.ranks
    ensures Measure(cfg, s, n) >= 0
  {
    if n > 0 {
      MeasureNonNegative(cfg, local, s, n - 1);
      assert Counted(cfg, s, n - 1);
      WorkShrinks(cfg, s.pos[n - 1], |s.got[n - 1]|, 0);
    }
  }

  /** Termination: no run is longer than the work of its first state. */
  lemma {:induction false} RunBounded(cfg: Config, local: Local, s: State, acts: seq<Action>, s': State)
    requires Inv(cfg, local, s) && Run(cfg, local, s, acts, s')
    ensures |acts| <= Measure(cfg, s, cfg.ranks)
    decreases |acts|
  {
    MeasureNonNegative(cfg, local, s, cfg.ranks);
    if acts != [] {
      StepInv(cfg, local, s, acts[0]);
      StepDecreases(cfg, local, s, acts[0]);
      RunBounded(cfg, local, Next(cfg, local, s, acts[0]), acts[1..], s');
    }
  }

  /** Every reachable state can be run to the end, whatever was scheduled before. */
  lemma {:induction false} Completes(cfg: Config, local: Local, s: State) returns (acts: seq<Action>, s': State)
    requires Inv(cfg, local, s)
    ensures Run(cfg, local, s, acts, s') && Finished(cfg, s')
    decreases Measure(cfg, s, cfg.ranks)
  {
    if Finished(cfg, s) {
      acts, s' := [], s;
    } else {
      var a := NoDeadlock(cfg, local, s);
      StepInv(cfg, local, s, a);
      StepDecreases(cfg, local, s, a);
      MeasureNonNegative(cfg, local, s, cfg.ranks);
      var t := Next(cfg, local, s, a);
      MeasureNonNegative(cfg, local, t, cfg.ranks);
      var rest;
      rest, s' := Completes(cfg, local, t);
      acts := [a] + rest;
      assert acts[1..] == rest;
    }
  }

  /** At the end of the walk nothing is left in flight. */
  lemma Drained(cfg: Config, local: Local, s: State, r: nat, src: nat)
    requires Inv(cfg, local, s) && Finished(cfg, s)
    requires r < cfg.ranks && src < cfg.ranks
    ensures s.chan[r][src] == [] && s.got[r] == []
  {
    assert Counted(cfg, s, r);
    assert Channel(cfg, local, s, r, src);
    var b := Owned(cfg, r, cfg.Total());
    forall q | 0 <= q < cfg.ranks ensures q != r ==> s.taken[r][q] <= b { assert Channel(cfg, local, s, r, q); }
    assert Channel(cfg, local, s, r, r);
    SumBound(s.taken[r], r, b);
    assert b * (cfg.ranks - 1) == (cfg.ranks - 1) * b;
  }
}
