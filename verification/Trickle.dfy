/** The trickle timer of contiki-ng/os/lib/trickle-timer.c: fields in modular clock
    arithmetic that keep to the unwrapped timeline of TrickleLine. */
module Trickle {
  import opened Arith
  import opened Bits
  import opened TrickleLine
  import opened TrickleConfig

  /** Ticks until a moment, both read from an m-valued clock; 0 if it seems past. */
  function Delay(moment: int, clk: int, m: int): int
    requires m >= 1
  {
    var d := (moment - clk) % m;
    if d > (m - 1) / 2 then 0 else d
  }

  lemma SignedMod(at: int, now: int, m: int)
    requires m >= 1 && -m < at - now < m
    ensures (at % m - now % m) % m == if at >= now then at - now else at - now + m
  {
    if at >= now {
      ModDifference(at, now, m);
    } else {
      ModDifference(at + m, now, m);
      ModShift(at, 1, m);
    }
  }

  /** For a moment at most half the clock range ahead and less than the whole behind, the
      modular delay is right exactly when the moment is less than half the range ahead and
      at most half the range behind. */
  lemma DelayExact(at: int, now: int, m: int)
    requires m >= 2 && m % 2 == 0 && -m < at - now <= m / 2
    ensures Delay(at % m, now % m, m) == Max(at - now, 0) <==> -(m / 2) <= at - now < m / 2
    ensures at - now == m / 2 ==> Delay(at % m, now % m, m) == 0
  {
    SignedMod(at, now, m);
  }

  /** The fields of struct trickle_timer and its ctimer, and the timeline they stand for. */
  datatype Regs = Regs(imin: int, cur: int, start: int, abs: int, k: int, c: int,
                       cb: bool, kind: Pending, ctStart: int, ctInterval: int, line: Line)

  function ConfOf(r: Regs, m: int): Conf { Conf(r.imin, r.abs, r.k, m / 2) }

  /** The clock reads x mod m at the unwrapped time x. */
  ghost predicate Reads(clk: int, x: int, m: int)
    requires m >= 1
  {
    clk == x % m
  }

  ghost predicate Rep(r: Regs, m: int) {
    var f := ConfOf(r, m);
    && m >= 2 && m % 2 == 0 && Good(f) && Inv(r.line, f)
    && r.cur == r.line.cur.len && Reads(r.start, r.line.cur.start, m)
    && r.c == Min(r.line.heard, 255) && r.kind == r.line.pending && r.cb == r.line.cb
    && (r.kind != Nothing ==> 0 <= r.ctInterval < f.half && Reads((r.ctStart + r.ctInterval) % m, r.line.due, m))
  }

  ghost function Reps(m: int): iset<Regs> {
    iset r: Regs | Rep(r, m)
  }

  // ----- the steps on the fields -----

  function WithNewInterval(r: Regs, clk: int, draw: nat): Regs {
    r.(c := 0, start := clk, kind := ToFire, ctStart := clk, ctInterval := GetT(r.cur, draw))
  }

  function WithEnd(r: Regs, clk: int, m: int): Regs
    requires m >= 1
  {
    r.(kind := ToEnd, ctStart := clk, ctInterval := Delay((r.start + r.cur) % m, clk, m))
  }

  /** I << 1 while I <= Imax >> 1, else Imax. */
  function Doubled(cur: int, abs: int): (len: int)
    ensures len == Min(2 * cur, abs)
  {
    if cur <= abs / 2 then 2 * cur else abs
  }

  function WithDouble(r: Regs, clk: int, draw: nat, m: int): Regs
    requires m >= 1
  {
    var end := (r.start + r.cur) % m;
    var len := Doubled(r.cur, r.abs);
    r.(c := 0, cur := len, start := end, kind := ToFire, ctStart := clk,
    ctInterval := Delay((end + GetT(len, draw)) % m, clk, m))
  }

  lemma DueReads(clk: int, now: int, d: int, m: int)
    requires m >= 1 && Reads(clk, now, m)
    ensures Reads((clk + d) % m, now + d, m)
  {
    ModOfSum(now, d, m);
  }

  lemma BegunReps(r: Regs, m: int, cb: bool, len: int, clk: int, now: int, draw: nat)
    requires r in Reps(m) && Reads(clk, now, m) && r.imin <= len <= r.abs
    requires Inv(Begun(r.line.(cb := cb), now, len, draw), ConfOf(r, m))
    ensures WithNewInterval(r.(cb := cb, cur := len, line := Begun(r.line.(cb := cb), now, len, draw)), clk, draw) in Reps(m)
  {
    GetTRange(len, draw);
    DueReads(clk, now, GetT(len, draw), m);
  }

  lemma SetReps(r: Regs, m: int, clk: int, now: int, p: nat, draw: nat)
    requires r in Reps(m) && Reads(clk, now, m) && now >= r.line.clock
    ensures var f := ConfOf(r, m);
            WithNewInterval(r.(cb := true, cur := Picked(f, p), line := Step(r.line, f, Set(now, p, draw))), clk, draw) in Reps(m)
  {
    StepInv(r.line, ConfOf(r, m), Set(now, p, draw));
    BegunReps(r, m, true, Picked(ConfOf(r, m), p), clk, now, draw);
  }

  lemma InconsistentReps(r: Regs, m: int, clk: int, now: int, draw: nat)
    requires r in Reps(m) && Reads(clk, now, m) && now >= r.line.clock
    ensures var r' := r.(line := Step(r.line, ConfOf(r, m), Inconsistent(now, draw)));
            (if r.cur != r.imin then WithNewInterval(r'.(cur := r.imin), clk, draw) else r') in Reps(m)
  {
    StepInv(r.line, ConfOf(r, m), Inconsistent(now, draw));
    if r.cur != r.imin { BegunReps(r, m, r.cb, r.imin, clk, now, draw); }
  }

  lemma ConsistentReps(r: Regs, m: int, now: int)
    requires r in Reps(m) && now >= r.line.clock
    ensures r.(c := if r.c < 255 then r.c + 1 else r.c, line := Step(r.line, ConfOf(r, m), Consistent(now))) in Reps(m)
  {
    StepInv(r.line, ConfOf(r, m), Consistent(now));
  }

  lemma StopReps(r: Regs, m: int)
    requires r in Reps(m)
    ensures r.(kind := Nothing, cur := 0, line := Step(r.line, ConfOf(r, m), Stop)) in Reps(m)
  {
    StepInv(r.line, ConfOf(r, m), Stop);
  }

  /** The decision by the saturating counter is the one by the messages heard. */
  lemma FireReps(r: Regs, m: int, now: int)
    requires r in Reps(m) && Enabled(r.line, ConfOf(r, m), Fire(now)) && r.cb
    ensures r.(kind := Nothing, line := Step(r.line, ConfOf(r, m), Fire(now))) in Reps(m)
    ensures TxAllowed(r.k, r.c) <==> TxAllowed(r.k, r.line.heard)
  {
    StepInv(r.line, ConfOf(r, m), Fire(now));
  }

  /** Without a callback the end of the interval is scheduled at once. */
  lemma SilentReps(r: Regs, m: int, clk: int, now: int)
    requires r in Reps(m) && Reads(clk, now, m) && Enabled(r.line, ConfOf(r, m), Fire(now)) && !r.cb
    ensures m >= 1
    ensures WithEnd(r.(line := Step(r.line, ConfOf(r, m), Fire(now))), clk, m) in Reps(m)
  {
    StepInv(r.line, ConfOf(r, m), Fire(now));
    ReturnedReps(r, m, clk, now);
  }

  /** A running timer is scheduled for the end of its interval. */
  lemma ReturnedReps(r: Regs, m: int, clk: int, now: int)
    requires r in Reps(m) && Reads(clk, now, m) && r.cur != 0 && Inv(Returned(r.line, now), ConfOf(r, m))
    requires var half := m / 2; EndOf(r.line.cur) - half < now <= EndOf(r.line.cur) + half
    ensures m >= 1 && WithEnd(r.(line := Returned(r.line, now)), clk, m) in Reps(m)
  {
    EndArmed(r, m, clk, now);
  }

  /** The clock's reading of an interval's end, and the delay until it. */
  lemma ArmedReads(start: int, from: int, clk: int, now: int, d: int, m: int)
    requires m >= 2 && m % 2 == 0 && Reads(start, from, m) && Reads(clk, now, m)
    requires -(m / 2) <= from + d - now < m / 2
    ensures Delay((start + d) % m, clk, m) == Max(from + d - now, 0)
    ensures Reads((clk + Delay((start + d) % m, clk, m)) % m, Max(now, from + d), m)
  {
    DueReads(start, from, d, m);
    DelayExact(from + d, now, m);
    DueReads(clk, now, Max(from + d - now, 0), m);
  }

  lemma ReturnReps(r: Regs, m: int, clk: int, now: int)
    requires r in Reps(m) && Reads(clk, now, m) && Enabled(r.line, ConfOf(r, m), Return(now))
    ensures m >= 1
    ensures var r' := r.(line := Step(r.line, ConfOf(r, m), Return(now)));
            (if r.cur != 0 then WithEnd(r', clk, m) else r') in Reps(m)
  {
    StepInv(r.line, ConfOf(r, m), Return(now));
    if r.cur != 0 { ReturnedReps(r, m, clk, now); }
  }

  /** Where the end of an interval of half the clock range lies, the modular delay cannot
      tell: it is right except exactly there, and then the interval ends at once. */
  lemma EndArmedExactly(r: Regs, m: int, clk: int, now: int)
    requires r in Reps(m) && Reads(clk, now, m) && r.line.calling && r.cur != 0
    requires r.line.clock <= now <= EndOf(r.line.cur) + m / 2
    ensures m >= 1
    ensures var d := Delay((r.start + r.cur) % m, clk, m);
            && (d == Max(EndOf(r.line.cur) - now, 0) <==>
                !(r.line.cur.inside && r.cur == m / 2 && now == r.line.cur.start))
            && (r.line.cur.inside && r.cur == m / 2 && now == r.line.cur.start ==> d == 0)
  {
    EndIsNear(r.line, ConfOf(r, m), now);
    DueReads(r.start, r.line.cur.start, r.cur, m);
    DelayExact(EndOf(r.line.cur), now, m);
  }

  lemma EndArmed(r: Regs, m: int, clk: int, now: int)
    requires r in Reps(m) && Reads(clk, now, m) && r.cur != 0
    requires var f := ConfOf(r, m); EndOf(r.line.cur) - f.half < now <= EndOf(r.line.cur) + f.half
    ensures m >= 1
    ensures var d := Delay((r.start + r.cur) % m, clk, m);
            0 <= d < m / 2 && Reads((clk + d) % m, Max(now, EndOf(r.line.cur)), m)
  {
    ArmedReads(r.start, r.line.cur.start, clk, now, r.cur, m);
  }

  /** The callback t ticks after the end of the last interval. */
  lemma NextArmed(start: int, from: int, len: int, clk: int, now: int, t: int, m: int)
    requires m >= 2 && m % 2 == 0 && Reads(start, from, m) && Reads(clk, now, m)
    requires 0 <= t < m / 2 && 0 <= now - (from + len) <= m / 2
    ensures var end := (start + len) % m;
            var d := Delay((end + t) % m, clk, m);
            && Reads(end, from + len, m) && 0 <= d < m / 2
            && Reads((clk + d) % m, Max(now, from + len + t), m)
  {
    DueReads(start, from, len, m);
    ArmedReads((start + len) % m, from + len, clk, now, t, m);
  }

  lemma EndReps(r: Regs, m: int, clk: int, now: int, draw: nat)
    requires r in Reps(m) && Reads(clk, now, m) && Enabled(r.line, ConfOf(r, m), End(now, draw))
    ensures m >= 1
    ensures WithDouble(r.(line := Step(r.line, ConfOf(r, m), End(now, draw))), clk, draw, m) in Reps(m)
  {
    StepInv(r.line, ConfOf(r, m), End(now, draw));
    var len := Min(2 * r.cur, r.abs);
    GetTRange(len, draw);
    NextArmed(r.start, r.line.cur.start, r.cur, clk, now, GetT(len, draw), m);
  }

  /** A configured timer that is not running: what its counter, start field and callback
      hold from before does not matter. */
  ghost function Fresh(clock: int, heard: nat, start: int, cb: bool, calling: bool): Line {
    Line(Span(start, 0, 0, true, false, cb, []), heard, Nothing, 0, cb, calling, clock, [])
  }

  /** Imin << Imax is in the range a clock of w bits allows. */
  predicate InRange(w: nat, imin: int, abs: int)
    requires w >= 1
  {
    2 <= imin < Pow2(w - 1) && imin <= abs <= Pow2(w - 1)
  }

  lemma FreshReps(w: nat, r: Regs, clock: int, calling: bool)
    requires w >= 2 && InRange(w, r.imin, r.abs) && 0 <= r.k < 256 && 0 <= r.c < 256
    requires 0 <= r.start < Pow2(w) && r.cur == 0 && r.kind == Nothing && (calling ==> r.cb)
    ensures r.(line := Fresh(clock, r.c, r.start, r.cb, calling)) in Reps(Pow2(w))
  {
    EvenClock(w);
    ModSmall(r.start, Pow2(w));
    assert Inv(Fresh(clock, r.c, r.start, r.cb, calling), ConfOf(r, Pow2(w)));
  }

  lemma EvenClock(w: nat)
    requires w >= 1
    ensures Pow2(w) % 2 == 0 && Pow2(w) / 2 == Pow2(w - 1)
  {
    assert Pow2(w) == 2 * Pow2(w - 1);
  }

  class Timer {
    const w: nat
    const m: int
    var iMin: int
    var iCur: int
    var iStart: int
    var iMax: int
    var iMaxAbs: int
    var k: int
    var c: int
    var cb: bool
    var ct: Pending
    var ctStart: int
    var ctInterval: int
    ghost var line: Line

    ghost function View(): Regs
      reads this
    {
      Regs(iMin, iCur, iStart, iMaxAbs, k, c, cb, ct, ctStart, ctInterval, line)
    }

    ghost predicate Valid()
      reads this
    {
      m >= 1 && View() in Reps(m)
    }

    ghost function Config(): Conf
      reads this
    {
      ConfOf(View(), m)
    }

    /** The fields as a timer that does not run has them, configured or not. */
    ghost predicate Idle()
      reads this
    {
      && w >= 2 && m == Pow2(w) && iCur == 0 && ct == Nothing
      && 0 <= c < 256 && 0 <= iStart < m && (line.calling ==> cb)
    }

    /** A timer in cleared memory. */
    constructor (w: nat)
      requires Width(w)
      ensures this.w == w && Idle() && !cb && !line.calling
    {
      this.w, m := w, Pow2(w);
      iMin, iCur, iStart, iMax, iMaxAbs := 0, 0, 0, 0, 0;
      k, c, cb, ct, ctStart, ctInterval := 0, 0, false, Nothing, 0, 0;
      line := Fresh(0, 0, 0, false, false);
    }

    /** trickle_timer_config of a timer that does not run: a success configures it within
        the clock's range, unless an irregular Imin had to be adjusted (see
        TrickleConfig.Configure); an error changes nothing. */
    method Configure(imin: nat, imax: nat, k: nat, ghost now: int) returns (ok: bool)
      requires Idle() && Width(w) && imin < Pow2(w) && imax + 1 < w && k < 256
      modifies this
      ensures Idle() && c == old(c) && cb == old(cb) && (!ok ==> View() == old(View()))
      ensures ok <==> 2 <= imin < Pow2(w - 1) && imax != 0 && k != 0
      ensures ok ==> iMin == imin && this.k == k && iMax >= 0
      ensures ok && (Fits(imin, imax, w) || Regular(imin, w)) ==>
                && Valid() && line == Fresh(now, c, iStart, cb, old(line.calling)) && iMaxAbs == imin * Pow2(iMax)
                && if Fits(imin, imax, w) then iMax == imax else Largest(imin, iMax, w)
    {
      var e, abs;
      ok, e, abs := TrickleConfig.Configure(w, imin, imax, k);
      if ok { Store(imin, e, abs, k, now); }
    }

    method Store(imin: nat, e: nat, abs: nat, k: nat, ghost now: int)
      requires Idle() && k < 256
      modifies this`iMin, this`iMax, this`iMaxAbs, this`k, this`line
      ensures Idle() && iMin == imin && iMax == e && iMaxAbs == abs && this.k == k
      ensures line == Fresh(now, c, iStart, cb, old(line.calling))
      ensures InRange(w, imin, abs) ==> Valid()
    {
      iMin, iMax, iMaxAbs, this.k := imin, e, abs, k;
      if InRange(w, imin, abs) { FreshReps(w, View(), now, line.calling); }
      line := Fresh(now, c, iStart, cb, line.calling);
    }

    /** new_interval. */
    method NewInterval(clk: int, draw: nat)
      modifies this`c, this`iStart, this`ct, this`ctStart, this`ctInterval
      ensures View() == WithNewInterval(old(View()), clk, draw)
    {
      c := 0;
      var loc := GetT(iCur, draw);
      ct, ctStart, ctInterval := ToFire, clk, loc;
      iStart := ctStart;
    }

    /** trickle_timer_set. */
    method Set(clk: int, r: nat, draw: nat, ghost now: int)
      requires Valid() && Reads(clk, now, m) && now >= line.clock
      modifies this
      ensures Valid() && Config() == old(Config())
      ensures line == Step(old(line), old(Config()), TrickleLine.Set(now, r, draw))
      ensures cb && iMin <= iCur <= iMaxAbs && c == 0 && iStart == clk && ct == ToFire
    {
      SetReps(View(), m, clk, now, r, draw);
      line := Step(line, Config(), TrickleLine.Set(now, r, draw));
      cb := true;
      iCur := Picked(Conf(iMin, iMaxAbs, k, m / 2), r);
      NewInterval(clk, draw);
    }

    /** trickle_timer_stop. */
    method Stop()
      requires Valid()
      modifies this
      ensures Valid() && Config() == old(Config())
      ensures line == Step(old(line), old(Config()), TrickleLine.Stop)
      ensures iCur == 0 && ct == Nothing
    {
      StopReps(View(), m);
      line := Step(line, Config(), TrickleLine.Stop);
      ct := Nothing;
      iCur := 0;
    }

    /** trickle_timer_consistency. */
    method Consistency(ghost now: int)
      requires Valid() && now >= line.clock
      modifies this
      ensures Valid() && Config() == old(Config())
      ensures line == Step(old(line), old(Config()), Consistent(now))
      ensures c == Min(old(c) + 1, 255)
    {
      ConsistentReps(View(), m, now);
      line := Step(line, Config(), Consistent(now));
      if c < 0xFF { c := c + 1; }
    }

    /** trickle_timer_inconsistency. */
    method Inconsistency(clk: int, draw: nat, ghost now: int)
      requires Valid() && Reads(clk, now, m) && now >= line.clock
      modifies this
      ensures Valid() && Config() == old(Config())
      ensures line == Step(old(line), old(Config()), Inconsistent(now, draw))
      ensures iCur == iMin && if old(iCur) == iMin then c == old(c) && iStart == old(iStart) else c == 0 && iStart == clk
    {
      InconsistentReps(View(), m, clk, now, draw);
      line := Step(line, Config(), Inconsistent(now, draw));
      if iCur != iMin {
        iCur := iMin;
        NewInterval(clk, draw);
      }
    }

    /** fire, up to the call of the protocol's callback and what it is told; the whole of it
        when there is no callback. */
    method Fire(clk: int, ghost now: int) returns (called: bool, tx: bool)
      requires Valid() && Reads(clk, now, m) && Enabled(line, Config(), TrickleLine.Fire(now))
      modifies this
      ensures Valid() && Config() == old(Config())
      ensures line == Step(old(line), old(Config()), TrickleLine.Fire(now))
      ensures called == old(cb) && (called ==> (tx <==> old(k) == 0 || old(line.heard) < old(k)))
    {
      called, tx := cb, false;
      if cb {
        FireReps(View(), m, now);
        line := Step(line, Config(), TrickleLine.Fire(now));
        ct := Nothing;
        tx := k == 0 || c < k;
      } else {
        SilentReps(View(), m, clk, now);
        line := Step(line, Config(), TrickleLine.Fire(now));
        if iCur != 0 { ScheduleForEnd(clk); }
      }
    }

    /** schedule_for_end. */
    method ScheduleForEnd(clk: int)
      requires m >= 1
      modifies this`ct, this`ctStart, this`ctInterval
      ensures View() == WithEnd(old(View()), clk, m)
    {
      var loc := Delay((iStart + iCur) % m, clk, m);
      ct, ctStart, ctInterval := ToEnd, clk, loc;
    }

    /** fire, after the protocol's callback. */
    method Return(clk: int, ghost now: int)
      requires Valid() && Reads(clk, now, m) && Enabled(line, Config(), TrickleLine.Return(now))
      modifies this
      ensures Valid() && Config() == old(Config())
      ensures line == Step(old(line), old(Config()), TrickleLine.Return(now))
    {
      ReturnReps(View(), m, clk, now);
      line := Step(line, Config(), TrickleLine.Return(now));
      if iCur != 0 { ScheduleForEnd(clk); }
    }

    /** double_interval, with drift compensation. */
    method DoubleInterval(clk: int, draw: nat, ghost now: int)
      requires Valid() && Reads(clk, now, m) && Enabled(line, Config(), End(now, draw))
      modifies this
      ensures Valid() && Config() == old(Config())
      ensures line == Step(old(line), old(Config()), End(now, draw))
    {
      EndReps(View(), m, clk, now, draw);
      line := Step(line, Config(), End(now, draw));
      Advance(clk, draw);
    }

    method Advance(clk: int, draw: nat)
      requires m >= 1
      modifies this`c, this`iCur, this`iStart, this`ct, this`ctStart, this`ctInterval
      ensures View() == WithDouble(old(View()), clk, draw, m)
    {
      c := 0;
      var last := (iStart + iCur) % m;
      iCur := Doubled(iCur, iMaxAbs);
      var loc := GetT(iCur, draw);
      loc := Delay((last + loc) % m, clk, m);
      ct, ctStart, ctInterval := ToFire, clk, loc;
      iStart := last;
    }
  }
}
