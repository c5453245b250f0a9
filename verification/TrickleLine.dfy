/** The Trickle algorithm (section 4.2 of RFC 6206) as contiki-ng/os/lib/trickle-timer.c
    runs it, on an unwrapped timeline: one step per call into the library. */
module TrickleLine {
  import opened Arith
  import opened Bits

  /** Interval bounds in ticks, redundancy constant, and half the clock range. */
  datatype Conf = Conf(imin: int, imax: int, k: int, half: int)

  predicate Good(f: Conf) {
    2 <= f.imin < f.half && f.imin <= f.imax <= f.half && 0 <= f.k < 256
  }

  datatype Pending = Nothing | ToFire | ToEnd

  /** One call of the protocol's callback. */
  datatype Shot = Shot(at: int, heard: nat, tx: bool)

  /** An interval: its start, length and chosen point t, whether it was begun by a set or
      reset (`anew`) and then from inside the callback (`inside`), whether the timer had a
      callback when it began (`registered`), and its callbacks. */
  datatype Span = Span(start: int, len: int, t: int, anew: bool, inside: bool, registered: bool, shots: seq<Shot>)

  /** The current interval (len 0: stopped), the counter of consistent messages, the
      callback timer, whether the protocol registered a callback and whether it is being
      executed, the time of the last step, and the intervals that ran to their end. */
  datatype Line = Line(cur: Span, heard: nat, pending: Pending, due: int, cb: bool, calling: bool, clock: int,
                       past: seq<Span>)

  datatype Event =
    | Set(now: int, r: nat, draw: nat)
    | Consistent(now: int)
    | Inconsistent(now: int, draw: nat)
    | Stop
    | Fire(now: int)
    | Return(now: int)
    | End(now: int, draw: nat)

  function Min(a: int, b: int): int { if a <= b then a else b }

  function Max(a: int, b: int): int { if a >= b then a else b }

  /** The random point in an interval of length len. */
  function GetT(len: int, draw: nat): int {
    if len < 2 then len else len / 2 + draw % (len / 2)
  }

  /** Some draw below `range` picks the point t. */
  ghost predicate CanPick(len: int, range: nat, t: int) {
    exists draw: nat :: draw < range && GetT(len, draw) == t
  }

  /** The points an interval's t can be: half the interval on, but for an odd interval never
      the last tick, and never more values than there are draws. */
  lemma PointsExactly(len: int, range: nat, t: int)
    requires len >= 2 && range > 0
    ensures CanPick(len, range, t) <==> len / 2 <= t < len / 2 + Min(len / 2, range)
  {
    if len / 2 <= t < len / 2 + Min(len / 2, range) {
      ModSmall(t - len / 2, len / 2);
      assert GetT(len, t - len / 2) == t;
    }
    forall draw: nat | draw < range && GetT(len, draw) == t ensures len / 2 <= t < len / 2 + Min(len / 2, range) {
      if draw < len / 2 { ModSmall(draw, len / 2); }
    }
  }

  /** So all of the second half of the interval can be drawn exactly when the interval is
      even and half of it does not exceed the number of draws. */
  lemma SecondHalfExactly(len: int, range: nat)
    requires len >= 2 && range > 0
    ensures (forall t :: len / 2 <= t < len ==> CanPick(len, range, t)) <==> len % 2 == 0 && len / 2 <= range
  {
    forall t ensures CanPick(len, range, t) <==> len / 2 <= t < len / 2 + Min(len / 2, range) {
      PointsExactly(len, range, t);
    }
    assert len / 2 <= len - 1 < len;
    if len % 2 != 0 || len / 2 > range {
      assert !CanPick(len, range, len - 1);
    }
  }

  predicate TxAllowed(k: int, heard: int) { k == 0 || heard < k }

  function EndOf(p: Span): int { p.start + p.len }

  /** A new interval from now on. */
  function Begun(s: Line, now: int, len: int, draw: nat): Line {
    var t := GetT(len, draw);
    s.(cur := Span(now, len, t, true, s.calling, s.cb, []), heard := 0, pending := ToFire, due := now + t, clock := now)
  }

  /** The length a set picks. */
  function Picked(f: Conf, r: nat): int {
    if f.imax < f.imin then f.imin else f.imin + r % (f.imax - f.imin + 1)
  }

  /** The lengths a set can pick, with draws below `range`: all from Imin to Imax exactly
      when there are enough draws. */
  lemma LengthsExactly(f: Conf, range: nat, len: int)
    requires Good(f) && range > 0
    ensures (exists r: nat :: r < range && Picked(f, r) == len) <==> f.imin <= len < f.imin + Min(f.imax - f.imin + 1, range)
  {
    var n := f.imax - f.imin + 1;
    if f.imin <= len < f.imin + Min(n, range) {
      ModSmall(len - f.imin, n);
      assert Picked(f, len - f.imin) == len;
    }
    forall r: nat | r < range && Picked(f, r) == len ensures f.imin <= len < f.imin + Min(n, range) {
      if r < n { ModSmall(r, n); }
    }
  }

  /** The interval that follows cur: it starts where cur ends, whatever the time is. */
  function Followed(s: Line, f: Conf, now: int, draw: nat): Line {
    var len := Min(2 * s.cur.len, f.imax);
    var t := GetT(len, draw);
    var start := EndOf(s.cur);
    s.(cur := Span(start, len, t, false, false, s.cb, []), heard := 0, pending := ToFire, due := Max(now, start + t),
    clock := now, past := s.past + [s.cur])
  }

  /** The end of fire: a running timer waits for the end of its interval. */
  function Returned(s: Line, now: int): Line {
    if s.cur.len == 0 then s.(calling := false, clock := now)
    else s.(calling := false, pending := ToEnd, due := Max(now, EndOf(s.cur)), clock := now)
  }

  /** Steps that can happen next.  A timer's callback is executed when its timer is due, at
      most half the clock range after the nominal time on the timeline.  When the protocol's
      callback returns, the end of the interval is less than half the range ahead. */
  predicate Enabled(s: Line, f: Conf, e: Event) {
    match e
    case Set(now, _, _) => now >= s.clock
    case Consistent(now) => now >= s.clock
    case Inconsistent(now, _) => now >= s.clock
    case Stop => true
    case Fire(now) => now >= s.clock && !s.calling && s.pending == ToFire && s.due <= now <= s.cur.start + s.cur.t + f.half
    case Return(now) => now >= s.clock && s.calling && (s.cur.len != 0 ==> EndOf(s.cur) - f.half < now <= EndOf(s.cur) + f.half)
    case End(now, _) => now >= s.clock && !s.calling && s.pending == ToEnd && s.due <= now <= EndOf(s.cur) + f.half
  }

  function Step(s: Line, f: Conf, e: Event): Line {
    match e
    case Set(now, r, draw) => Begun(s.(cb := true), now, Picked(f, r), draw)
    case Consistent(now) => s.(heard := s.heard + 1, clock := now)
    case Inconsistent(now, draw) => if s.cur.len != f.imin then Begun(s, now, f.imin, draw) else s.(clock := now)
    case Stop => s.(cur := s.cur.(len := 0), pending := Nothing)
    case Fire(now) =>
      if s.cb then
        s.(cur := s.cur.(shots := s.cur.shots + [Shot(now, s.heard, TxAllowed(f.k, s.heard))]),
        pending := Nothing, calling := true, clock := now)
      else Returned(s, now)
    case Return(now) => Returned(s, now)
    case End(now, draw) => Followed(s, f, now, draw)
  }

  /** The steps es can happen one after another from s. */
  predicate Possible(s: Line, f: Conf, es: seq<Event>)
    decreases |es|
  {
    es == [] || (Enabled(s, f, es[0]) && Possible(Step(s, f, es[0]), f, es[1..]))
  }

  function Run(s: Line, f: Conf, es: seq<Event>): Line
    decreases |es|
  {
    if es == [] then s else Run(Step(s, f, es[0]), f, es[1..])
  }

  // ----- what every step keeps -----

  predicate Sized(p: Span, f: Conf) {
    f.imin <= p.len <= f.imax && p.len / 2 <= p.t < p.len
  }

  /** The callbacks of an interval: one, not before t, with the right decision, unless the
      interval was begun inside the callback or without one registered: then none. */
  predicate Shots(p: Span, f: Conf) {
    && |p.shots| == (if p.inside || !p.registered then 0 else 1)
    && forall i :: 0 <= i < |p.shots| ==>
         p.shots[i].at >= p.start + p.t && (p.shots[i].tx <==> TxAllowed(f.k, p.shots[i].heard))
  }

  /** Interval q comes after p: unless it was begun anew, it starts where p ends and is
      twice as long, up to Imax. */
  predicate Follows(p: Span, q: Span, f: Conf) {
    !q.anew ==> q.start == EndOf(p) && (q.len != 0 ==> q.len == Min(2 * p.len, f.imax))
  }

  predicate Contiguous(past: seq<Span>, f: Conf) {
    forall i :: 0 < i < |past| ==> Follows(past[i - 1], past[i], f)
  }

  predicate Complete(past: seq<Span>, f: Conf) {
    forall i :: 0 <= i < |past| ==> Sized(past[i], f) && Shots(past[i], f)
  }

  /** What the pending callback and the executing one say about the current interval. */
  predicate Staged(s: Line, f: Conf) {
    && (s.cur.len == 0 ==> s.pending == Nothing)
    && (s.cur.len != 0 ==> Sized(s.cur, f))
    && (s.cur.inside ==> s.cur.anew) && (s.calling ==> s.cb) && s.cur.registered == s.cb
    && (s.pending == Nothing && !s.calling ==> s.cur.len == 0)
    && (s.pending == ToFire ==> s.cur.shots == [] && s.due >= s.cur.start + s.cur.t && s.cur.inside == s.calling)
    && (s.pending == ToEnd ==> !s.calling && Shots(s.cur, f) && s.due >= EndOf(s.cur))
    && (s.calling && s.pending == Nothing && s.cur.len != 0 ==> Shots(s.cur, f) && !s.cur.inside)
    && (s.calling && s.cur.len != 0 ==> s.clock >= s.cur.start + if s.cur.inside then 0 else s.cur.t)
  }

  predicate Inv(s: Line, f: Conf) {
    Staged(s, f) && Linked(s, f)
  }

  predicate Linked(s: Line, f: Conf) {
    && Complete(s.past, f) && Contiguous(s.past, f)
    && (|s.past| > 0 ==> Follows(s.past[|s.past| - 1], s.cur, f))
    && (|s.past| == 0 ==> s.cur.anew || s.cur.len == 0)
  }

  lemma GetTRange(len: int, draw: nat)
    requires len >= 2
    ensures len / 2 <= GetT(len, draw) < len
  {}

  lemma StepStaged(s: Line, f: Conf, e: Event)
    requires Good(f) && Inv(s, f) && Enabled(s, f, e)
    ensures Staged(Step(s, f, e), f)
  {
    match e
    case Set(now, r, draw) => GetTRange(Picked(f, r), draw);
    case Inconsistent(now, draw) => GetTRange(f.imin, draw);
    case End(now, draw) => GetTRange(Min(2 * s.cur.len, f.imax), draw);
    case _ =>
  }

  lemma StepPast(s: Line, f: Conf, e: Event)
    requires Good(f) && Inv(s, f) && Enabled(s, f, e)
    ensures Linked(Step(s, f, e), f)
  {
    if e.End? {
      var past := s.past + [s.cur];
      assert Complete(past, f) && Contiguous(past, f);
    }
  }

  /** Every step keeps the invariant. */
  lemma StepInv(s: Line, f: Conf, e: Event)
    requires Good(f) && Inv(s, f) && Enabled(s, f, e)
    ensures Inv(Step(s, f, e), f)
  {
    StepStaged(s, f, e);
    StepPast(s, f, e);
  }

  /** What a return from the callback needs of the interval's end always holds, except when
      a set inside the callback picked half the clock range and the same tick returns. */
  lemma EndIsNear(s: Line, f: Conf, now: int)
    requires Good(f) && Inv(s, f) && s.calling && s.cur.len != 0 && now >= s.clock
    ensures EndOf(s.cur) - f.half < now <==> !(s.cur.inside && s.cur.len == f.half && now == s.cur.start)
  {}

  lemma {:induction false} RunInv(s: Line, f: Conf, es: seq<Event>)
    requires Good(f) && Inv(s, f) && Possible(s, f, es)
    ensures Inv(Run(s, f, es), f)
    decreases |es|
  {
    if es != [] {
      StepInv(s, f, es[0]);
      RunInv(Step(s, f, es[0]), f, es[1..]);
    }
  }

  // ----- consequences for whole runs -----

  /** The length of past[i..j] in ticks. */
  function Ticks(past: seq<Span>, i: nat, j: nat): int
    requires i <= j <= |past|
    decreases j
  {
    if i == j then 0 else Ticks(past, i, j - 1) + past[j - 1].len
  }

  /** Between resets, interval j starts exactly where the lengths before it put it, however
      late the callbacks were, and the length doubles up to Imax. */
  lemma {:induction false} Uninterrupted(past: seq<Span>, f: Conf, i: nat, j: nat)
    requires Good(f) && Complete(past, f) && Contiguous(past, f)
    requires i <= j < |past| && forall m :: i < m <= j ==> !past[m].anew
    ensures past[j].start == past[i].start + Ticks(past, i, j)
    ensures past[j].len == Min(Pow2(j - i) * past[i].len, f.imax)
    decreases j
  {
    if i < j {
      Uninterrupted(past, f, i, j - 1);
      assert Follows(past[j - 1], past[j], f);
      Redoubled(j - i, past[i].len, past[j - 1].len, f.imax);
    }
  }

  lemma Redoubled(n: nat, len: int, last: int, imax: int)
    requires n > 0 && imax >= 0 && last == Min(Pow2(n - 1) * len, imax)
    ensures Min(2 * last, imax) == Min(Pow2(n) * len, imax)
  {
    assert Pow2(n) * len == 2 * (Pow2(n - 1) * len);
  }

  /** In every run, every completed interval called back exactly once, unless it was begun
      inside the callback or on a timer that was never set. */
  lemma OncePerInterval(s: Line, f: Conf, es: seq<Event>, i: nat)
    requires Good(f) && Inv(s, f) && Possible(s, f, es) && i < |Run(s, f, es).past|
    ensures var p := Run(s, f, es).past[i];
            && f.imin <= p.len <= f.imax && p.len / 2 <= p.t < p.len
            && (|p.shots| == 1 <==> !p.inside && p.registered) && (|p.shots| == 0 <==> p.inside || !p.registered)
            && (!p.inside && p.registered ==> p.shots[0].at >= p.start + p.t && (p.shots[0].tx <==> TxAllowed(f.k, p.shots[0].heard)))
  {
    RunInv(s, f, es);
    assert Sized(Run(s, f, es).past[i], f) && Shots(Run(s, f, es).past[i], f);
  }

  // ----- which messages a callback's decision counts -----

  /** Step e begins an interval. */
  predicate Begins(s: Line, f: Conf, e: Event) {
    e.Set? || e.End? || (e.Inconsistent? && s.cur.len != f.imin)
  }

  /** Among the first n steps, b is the last one that begins an interval. */
  predicate Began(s: Line, f: Conf, es: seq<Event>, b: nat, n: nat) {
    && b < n <= |es| && Begins(Run(s, f, es[..b]), f, es[b])
    && forall j :: b < j < n ==> !Begins(Run(s, f, es[..j]), f, es[j])
  }

  /** The consistent messages among es[i..j] that arrived at time t or later. */
  function HeardFrom(es: seq<Event>, i: nat, j: nat, t: int): nat
    requires j <= |es|
    decreases j
  {
    if j <= i then 0
    else HeardFrom(es, i, j - 1, t) + if es[j - 1].Consistent? && es[j - 1].now >= t then 1 else 0
  }

  /** The consistent messages among es[i..j]. */
  function Heard(es: seq<Event>, i: nat, j: nat): nat
    requires j <= |es|
    decreases j
  {
    if j <= i then 0 else Heard(es, i, j - 1) + if es[j - 1].Consistent? then 1 else 0
  }

  /** The last of n + 1 steps. */
  lemma {:induction false} RunLast(s: Line, f: Conf, es: seq<Event>, n: nat)
    requires n < |es| && Possible(s, f, es)
    ensures Run(s, f, es[..n + 1]) == Step(Run(s, f, es[..n]), f, es[n])
    ensures Enabled(Run(s, f, es[..n]), f, es[n])
    decreases n
  {
    if n > 0 {
      RunLast(Step(s, f, es[0]), f, es[1..], n - 1);
      assert es[1..][..n] == es[..n + 1][1..] && es[1..][..n - 1] == es[..n][1..];
    }
  }

  lemma {:induction false} RunPrefix(s: Line, f: Conf, es: seq<Event>, n: nat)
    requires Good(f) && Inv(s, f) && n <= |es| && Possible(s, f, es)
    ensures Inv(Run(s, f, es[..n]), f)
    decreases n
  {
    if n > 0 {
      RunPrefix(s, f, es, n - 1);
      RunLast(s, f, es, n - 1);
      StepInv(Run(s, f, es[..n - 1]), f, es[n - 1]);
    }
  }

  /** Interval p, begun with step b of es when i intervals had run to their end. */
  predicate BegunBy(s: Line, f: Conf, es: seq<Event>, b: nat, p: Span, i: nat)
    requires b < |es|
  {
    Run(s, f, es[..b + 1]).cur == p.(shots := []) && |Run(s, f, es[..b + 1]).past| == i && Run(s, f, es[..b + 1]).clock >= p.start
  }

  /** The interval's callback is the one of step x, and its decision is the one by the
      messages between step b, which began the interval, and step x. */
  predicate Decided(s: Line, f: Conf, es: seq<Event>, b: nat, x: nat, p: Span, i: nat) {
    && Began(s, f, es, b, x) && x < |es| && BegunBy(s, f, es, b, p, i)
    && |p.shots| == 1 && es[x] == Fire(p.shots[0].at)
    && p.shots[0].heard == Heard(es, b + 1, x)
    && (p.shots[0].tx <==> TxAllowed(f.k, Heard(es, b + 1, x)))
  }

  /** Step b began the current interval of the first n steps, and the counter is the number
      of messages heard since. */
  predicate Since(s: Line, f: Conf, es: seq<Event>, n: nat, b: nat)
    requires n <= |es|
  {
    var r := Run(s, f, es[..n]);
    Began(s, f, es, b, n) && BegunBy(s, f, es, b, r.cur, |r.past|) && r.heard == Heard(es, b + 1, n)
  }

  /** What the first n steps say about the current interval: which step began it, and which
      one called back. */
  ghost predicate Traced(s: Line, f: Conf, es: seq<Event>, n: nat)
    requires n <= |es|
  {
    var r := Run(s, f, es[..n]);
    r.cur.len != 0 ==>
      && (exists b: nat :: Since(s, f, es, n, b))
      && (r.cur.shots != [] ==> exists b: nat, x: nat :: Decided(s, f, es, b, x, r.cur, |r.past|))
  }

  /** The same for the completed intervals. */
  ghost predicate TracedPast(s: Line, f: Conf, es: seq<Event>, n: nat)
    requires n <= |es|
  {
    var past := Run(s, f, es[..n]).past;
    forall i :: 0 <= i < |past| && past[i].shots != [] ==> exists b: nat, x: nat :: Decided(s, f, es, b, x, past[i], i)
  }

  lemma TracedStep(s: Line, f: Conf, es: seq<Event>, n: nat)
    requires Good(f) && n < |es| && Possible(s, f, es) && Traced(s, f, es, n) && Inv(Run(s, f, es[..n]), f)
    ensures Traced(s, f, es, n + 1)
  {
    var r, r' := Run(s, f, es[..n]), Run(s, f, es[..n + 1]);
    RunLast(s, f, es, n);
    if Begins(r, f, es[n]) {
      BeginsSince(s, f, es, n);
    } else if r'.cur.len != 0 {
      var b: nat :| Since(s, f, es, n, b);
      KeepsSince(s, f, es, n, b);
      if r'.cur.shots != r.cur.shots { FireDecides(s, f, es, n, b); }
    }
  }

  /** A step that begins an interval. */
  lemma BeginsSince(s: Line, f: Conf, es: seq<Event>, n: nat)
    requires n < |es| && Possible(s, f, es) && Inv(Run(s, f, es[..n]), f) && Begins(Run(s, f, es[..n]), f, es[n])
    ensures Since(s, f, es, n + 1, n) && Run(s, f, es[..n + 1]).cur.shots == []
  {
    RunLast(s, f, es, n);
  }

  /** A step that begins none and leaves the timer running: the interval is the same. */
  lemma KeepsSince(s: Line, f: Conf, es: seq<Event>, n: nat, b: nat)
    requires n < |es| && Possible(s, f, es) && Since(s, f, es, n, b) && !Begins(Run(s, f, es[..n]), f, es[n])
    requires Run(s, f, es[..n + 1]).cur.len != 0
    ensures Since(s, f, es, n + 1, b)
    ensures var r, r' := Run(s, f, es[..n]), Run(s, f, es[..n + 1]);
            r'.cur.(shots := r.cur.shots) == r.cur && r'.past == r.past
  {
    RunLast(s, f, es, n);
    var r, r' := Run(s, f, es[..n]), Run(s, f, es[..n + 1]);
    assert r'.cur.(shots := []) == r.cur.(shots := []) && |r'.past| == |r.past|;
    assert BegunBy(s, f, es, b, r'.cur, |r'.past|);
    assert r'.heard == r.heard + if es[n].Consistent? then 1 else 0;
  }

  lemma FireDecides(s: Line, f: Conf, es: seq<Event>, n: nat, b: nat)
    requires n < |es| && Possible(s, f, es) && Inv(Run(s, f, es[..n]), f)
    requires Since(s, f, es, n, b) && Since(s, f, es, n + 1, b)
    requires !Begins(Run(s, f, es[..n]), f, es[n]) && Run(s, f, es[..n + 1]).cur.shots != Run(s, f, es[..n]).cur.shots
    ensures var r' := Run(s, f, es[..n + 1]); Decided(s, f, es, b, n, r'.cur, |r'.past|)
  {
    RunLast(s, f, es, n);
  }

  lemma TracedPastStep(s: Line, f: Conf, es: seq<Event>, n: nat)
    requires n < |es| && Possible(s, f, es) && Traced(s, f, es, n) && TracedPast(s, f, es, n)
    requires Good(f) && Inv(Run(s, f, es[..n]), f)
    ensures TracedPast(s, f, es, n + 1)
  {
    RunLast(s, f, es, n);
    var past, past' := Run(s, f, es[..n]).past, Run(s, f, es[..n + 1]).past;
    assert past' == past || (es[n].End? && past' == past + [Run(s, f, es[..n]).cur]);
    forall i | 0 <= i < |past'| && past'[i].shots != []
      ensures exists b: nat, x: nat :: Decided(s, f, es, b, x, past'[i], i)
    {
      if i < |past| { assert past'[i] == past[i]; }
    }
  }

  lemma {:induction false} RunTraced(s: Line, f: Conf, es: seq<Event>, n: nat)
    requires Good(f) && Inv(s, f) && s.cur.len == 0 && s.past == [] && n <= |es| && Possible(s, f, es)
    ensures Traced(s, f, es, n) && TracedPast(s, f, es, n)
    decreases n
  {
    if n > 0 {
      RunTraced(s, f, es, n - 1);
      RunPrefix(s, f, es, n - 1);
      TracedStep(s, f, es, n - 1);
      TracedPastStep(s, f, es, n - 1);
    }
  }

  /** In every run of a timer that does not run at first, the decision of every completed
      interval is the one by the messages heard after the step that began it. */
  lemma DecidedByMessages(s: Line, f: Conf, es: seq<Event>, i: nat)
    requires Good(f) && Inv(s, f) && s.cur.len == 0 && s.past == [] && Possible(s, f, es)
    requires i < |Run(s, f, es).past| && Run(s, f, es).past[i].shots != []
    ensures exists b: nat, x: nat :: Decided(s, f, es, b, x, Run(s, f, es).past[i], i)
  {
    RunTraced(s, f, es, |es|);
    assert es[..|es|] == es;
  }

  /** Steps after the one that left the clock at t or later happen at t or later. */
  lemma {:induction false} LaterClock(s: Line, f: Conf, es: seq<Event>, b: nat, n: nat, t: int)
    requires b < n <= |es| && Possible(s, f, es) && Run(s, f, es[..b + 1]).clock >= t
    ensures Run(s, f, es[..n]).clock >= t && HeardFrom(es, b + 1, n, t) == Heard(es, b + 1, n)
    decreases n
  {
    if b + 1 < n {
      LaterClock(s, f, es, b, n - 1, t);
      RunLast(s, f, es, n - 1);
    }
  }

  lemma {:induction false} HeardSplit(es: seq<Event>, b: nat, x: nat, t: int)
    requires b < x <= |es| && !es[b].Consistent?
    ensures HeardFrom(es, 0, x, t) == HeardFrom(es, 0, b, t) + HeardFrom(es, b + 1, x, t)
    decreases x
  {
    if b + 1 < x { HeardSplit(es, b, x - 1, t); }
  }

  lemma {:induction false} NoneHeard(es: seq<Event>, b: nat, t: int)
    requires b <= |es|
    ensures HeardFrom(es, 0, b, t) == 0 <==> forall j :: 0 <= j < b && es[j].Consistent? ==> es[j].now < t
    decreases b
  {
    if b > 0 { NoneHeard(es, b - 1, t); }
  }

  /** The decision is by all messages heard from the interval's own start on exactly when
      none of them arrived before the step that began the interval: a doubling that runs
      late forgets the others.  It decides wrongly exactly when they would have made k. */
  lemma CountsFromStartExactly(s: Line, f: Conf, es: seq<Event>, b: nat, x: nat, p: Span, i: nat)
    requires Possible(s, f, es) && Decided(s, f, es, b, x, p, i)
    ensures p.shots[0].heard == HeardFrom(es, 0, x, p.start) - HeardFrom(es, 0, b, p.start)
    ensures p.shots[0].heard == HeardFrom(es, 0, x, p.start) <==>
            forall j :: 0 <= j < b && es[j].Consistent? ==> es[j].now < p.start
    ensures (p.shots[0].tx <==> TxAllowed(f.k, HeardFrom(es, 0, x, p.start))) <==>
            !(HeardFrom(es, 0, x, p.start) - HeardFrom(es, 0, b, p.start) < f.k <= HeardFrom(es, 0, x, p.start))
  {
    LaterClock(s, f, es, b, x, p.start);
    HeardSplit(es, b, x, p.start);
    NoneHeard(es, b, p.start);
  }

  /** Where it fails: the interval [4, 12) is begun at 6, the message of time 5 is forgotten,
      and the protocol is told to send although k = 1 message was heard. */
  lemma LateDoublingForgets(s: Line)
    requires s == Line(Span(0, 0, 0, true, false, false, []), 0, Nothing, 0, false, false, 0, [])
    ensures var f := Conf(4, 16, 1, 32768);
            var es := [Set(0, 0, 0), Fire(2), Return(2), Consistent(5), End(6, 0), Fire(8), Return(8), End(12, 0)];
            && Good(f) && Inv(s, f) && Possible(s, f, es) && |Run(s, f, es).past| == 2
            && var p := Run(s, f, es).past[1];
               && p.start == 4 && EndOf(p) == 12 && p.shots == [Shot(8, 0, true)]
               && HeardFrom(es, 0, 5, p.start) == 1 && !TxAllowed(f.k, HeardFrom(es, 0, 5, p.start))
  {
    var f := Conf(4, 16, 1, 32768);
    var s1 := Step(s, f, Set(0, 0, 0));
    var s2 := Step(s1, f, Fire(2));
    var s3 := Step(s2, f, Return(2));
    var s4 := Step(s3, f, Consistent(5));
    var s5 := Step(s4, f, End(6, 0));
    var s6 := Step(s5, f, Fire(8));
    var s7 := Step(s6, f, Return(8));
    var s8 := Step(s7, f, End(12, 0));
    assert Run(s8, f, []) == s8;
    assert Run(s7, f, [End(12, 0)]) == s8;
  }

  /** A reset inside the callback begins an interval that ends without a callback: the
      timer it sets is replaced by the one for the interval's end. */
  lemma ResetInsideIsSilent(s: Line, f: Conf, now: int, draw: nat, back: int, end: int, draw': nat)
    requires Good(f) && Inv(s, f) && s.calling && s.cur.len != f.imin && now >= s.clock
    requires now <= back <= now + f.imin <= end <= now + f.imin + f.half
    ensures Enabled(s, f, Inconsistent(now, draw))
    ensures var s1 := Step(s, f, Inconsistent(now, draw));
            && Inv(s1, f) && Enabled(s1, f, Return(back))
            && var s2 := Step(s1, f, Return(back));
               && Inv(s2, f) && Enabled(s2, f, End(end, draw'))
               && var past := Step(s2, f, End(end, draw')).past;
                  |past| == |s.past| + 1 && past[|s.past|].start == now && past[|s.past|].shots == []
  {
    StepInv(s, f, Inconsistent(now, draw));
    StepInv(Step(s, f, Inconsistent(now, draw)), f, Return(back));
  }

  /** Callbacks are not scheduled later than they should be. */
  predicate Prompt(s: Line) {
    && (s.pending == ToFire ==> s.due <= Max(s.clock, s.cur.start + s.cur.t))
    && (s.pending == ToEnd ==> s.due <= Max(s.clock, EndOf(s.cur)))
  }

  lemma {:induction false} RunPrompt(s: Line, f: Conf, es: seq<Event>)
    requires Good(f) && Inv(s, f) && Prompt(s) && Possible(s, f, es)
    ensures Prompt(Run(s, f, es))
    decreases |es|
  {
    if es != [] {
      StepInv(s, f, es[0]);
      assert Prompt(Step(s, f, es[0]));
      RunPrompt(Step(s, f, es[0]), f, es[1..]);
    }
  }

  /** In every run the next callback is due exactly at t, or at the interval's end, unless
      that moment is past already: then at once. */
  lemma DueExactly(s: Line, f: Conf, es: seq<Event>)
    requires Good(f) && Inv(s, f) && Prompt(s) && Possible(s, f, es)
    ensures var r := Run(s, f, es);
            && (r.pending == ToFire ==> r.cur.start + r.cur.t <= r.due <= Max(r.clock, r.cur.start + r.cur.t))
            && (r.pending == ToEnd ==> EndOf(r.cur) <= r.due <= Max(r.clock, EndOf(r.cur)))
  {
    RunInv(s, f, es);
    RunPrompt(s, f, es);
  }

  /** A set or reset begins an interval at its own time, with nothing heard; a reset takes
      Imin, and does nothing but pass the time if the interval is that already. */
  lemma BeginsExactly(s: Line, f: Conf, e: Event)
    requires Good(f) && Inv(s, f) && Enabled(s, f, e) && (e.Set? || e.Inconsistent?)
    ensures var r := Step(s, f, e);
            if e.Set? || s.cur.len != f.imin
            then && r.cur.start == r.clock == e.now && r.heard == 0 && r.cur.shots == [] && r.pending == ToFire
                 && r.due == e.now + r.cur.t && r.past == s.past
                 && (if e.Set? then r.cb && f.imin <= r.cur.len <= f.imax else r.cb == s.cb && r.cur.len == f.imin)
            else r == s.(clock := e.now)
  {
    StepInv(s, f, e);
  }

  /** A running timer always has its next callback scheduled; a stopped one never. */
  lemma NeverStalls(s: Line, f: Conf, es: seq<Event>)
    requires Good(f) && Inv(s, f) && Possible(s, f, es)
    ensures var r := Run(s, f, es); !r.calling ==> (r.cur.len != 0 <==> r.pending != Nothing)
  {
    RunInv(s, f, es);
  }

  /** An inconsistency on a configured timer that was never set starts an interval that
      completes without a callback. */
  lemma NeverSetIsSilent(s: Line, f: Conf, draw: nat, draw': nat)
    requires Good(f) && Inv(s, f) && s.cur.len == 0 && !s.cb && !s.calling
    ensures var s1 := Step(s, f, Inconsistent(s.clock, draw));
            && Inv(s1, f) && Enabled(s1, f, Fire(s1.due))
            && var s2 := Step(s1, f, Fire(s1.due));
               && Inv(s2, f) && Enabled(s2, f, End(s2.due, draw'))
               && var past := Step(s2, f, End(s2.due, draw')).past;
                  |past| == |s.past| + 1 && past[|s.past|].shots == [] && !past[|s.past|].inside
  {
    StepInv(s, f, Inconsistent(s.clock, draw));
    var s1 := Step(s, f, Inconsistent(s.clock, draw));
    StepInv(s1, f, Fire(s1.due));
  }

  /** A stop takes effect at once: whatever follows, as long as it is no set and no
      inconsistency, no callback is called and no interval ends. */
  lemma StopSilences(s: Line, f: Conf, es: seq<Event>)
    requires Good(f) && Inv(s, f) && Possible(Step(s, f, Stop), f, es)
    requires forall i :: 0 <= i < |es| ==> !es[i].Set? && !es[i].Inconsistent?
    ensures Step(s, f, Stop).pending == Nothing && StoppedThroughout(Step(s, f, Stop), f, es)
    ensures forall i :: 0 <= i < |es| ==> !es[i].Fire? && !es[i].End?
  {
    StepInv(s, f, Stop);
    StaysStoppedExactly(Step(s, f, Stop), f, es);
    NoCallbacks(Step(s, f, Stop), f, es);
  }

  lemma {:induction false} NoCallbacks(s: Line, f: Conf, es: seq<Event>)
    requires Good(f) && Inv(s, f) && Possible(s, f, es) && StoppedThroughout(s, f, es)
    ensures forall i :: 0 <= i < |es| ==> !es[i].Fire? && !es[i].End?
    decreases |es|
  {
    if es != [] {
      StepInv(s, f, es[0]);
      NoCallbacks(Step(s, f, es[0]), f, es[1..]);
      assert forall i :: 0 < i < |es| ==> es[i] == es[1..][i - 1];
    }
  }

  /** The timer is stopped before, between and after the steps. */
  predicate StoppedThroughout(s: Line, f: Conf, es: seq<Event>)
    decreases |es|
  {
    s.cur.len == 0 && (es == [] || StoppedThroughout(Step(s, f, es[0]), f, es[1..]))
  }

  /** A stopped timer stays stopped as long as it is not set and, other than the header
      promises, as long as no inconsistency is heard either. */
  lemma {:induction false} StaysStoppedExactly(s: Line, f: Conf, es: seq<Event>)
    requires Good(f) && Inv(s, f) && s.cur.len == 0 && Possible(s, f, es)
    ensures StoppedThroughout(s, f, es) <==> forall i :: 0 <= i < |es| ==> !es[i].Set? && !es[i].Inconsistent?
    decreases |es|
  {
    if es != [] {
      var s1 := Step(s, f, es[0]);
      StepInv(s, f, es[0]);
      if es[0].Set? || es[0].Inconsistent? {
        assert s1.cur.len != 0 && !StoppedThroughout(s1, f, es[1..]);
      } else {
        StaysStoppedExactly(s1, f, es[1..]);
        assert forall i :: 0 < i < |es| ==> es[i] == es[1..][i - 1];
      }
    }
  }
}
