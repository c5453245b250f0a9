/** The event timers of contiki-ng/os/sys/etimer.c: a linked list of timers, each with an
    owner process; a poll posts an event for every expired timer and takes it off. */
module Etimer {
  import opened Arith
  import opened LinkedList

  const PROCESS_NONE: int := 0

  datatype Timer = Timer(p: int, start: int, interval: int)

  datatype Post = Post(p: int, timer: int)

  /** Ticks until a timer is due, modulo the clock. */
  function Distance(size: int, t: Timer, now: int): int
    requires size > 0
  {
    (t.start + t.interval - now) % size
  }

  /** The distance is in the clock's range and leads from now to the end of the interval. */
  lemma DistanceExactly(size: int, t: Timer, now: int)
    requires size > 0
    ensures 0 <= Distance(size, t, now) < size
    ensures (now + Distance(size, t, now)) % size == (t.start + t.interval) % size
  {
    ModOfSum(t.start + t.interval - now, now, size);
  }

  /** On an unwrapped timeline: the ticks from `at` to the due time, if that is less than a
      whole clock range ahead. */
  lemma DistanceRemaining(size: int, t: Timer, at: int, due: int)
    requires size > 0 && t.start % size == (due - t.interval) % size && at <= due < at + size
    ensures Distance(size, t, at % size) == due - at
  {
    DistanceExactly(size, t, at % size);
    Remaining(size, t.start, t.interval, at, due, Distance(size, t, at % size));
  }

  lemma Remaining(size: int, start: int, interval: int, at: int, due: int, d: int)
    requires size > 0 && start % size == (due - interval) % size && at <= due < at + size
    requires 0 <= d < size && (at % size + d) % size == (start + interval) % size
    ensures d == due - at
  {
    SameLater(start, due - interval, interval, due, size);
    ModOfSum(at, d, size);
    ModInjective(at + d, due, size);
  }

  /** Moments that the clock does not tell apart stay so. */
  lemma SameLater(x: int, y: int, i: int, z: int, size: int)
    requires size > 0 && x % size == y % size && y + i == z
    ensures (x + i) % size == z % size
  {
    ModOfSum(x, i, size);
    ModOfSum(y, i, size);
  }

  /** timer_expired, with its increment that can wrap. */
  predicate Expired(size: int, t: Timer, now: int)
    requires size > 0
  {
    t.interval < ((now - t.start) % size + 1) % size
  }

  /** A timer is expired once its interval has passed, except on the one tick where the
      increment wraps to 0. */
  lemma ExpiredExactly(size: int, t: Timer, now: int)
    requires size > 0 && 0 <= t.interval < size
    ensures var elapsed := (now - t.start) % size;
            Expired(size, t, now) <==> t.interval <= elapsed && elapsed + 1 != size
  {
    var elapsed := (now - t.start) % size;
    if elapsed + 1 == size { ModSmall(0, size); ModShift(0, 1, size); } else { ModSmall(elapsed + 1, size); }
  }

  /** The least distance over a list. */
  ghost predicate IsLeast(size: int, timers: map<int, Timer>, list: seq<int>, now: int, d: int) {
    && size > 0 && (forall x :: x in list ==> x in timers)
    && (forall x :: x in list ==> d <= Distance(size, timers[x], now))
    && (exists x :: x in list && d == Distance(size, timers[x], now))
  }

  /** What next_expiration may be: 0 without timers, else now plus the least distance. */
  ghost function Expirations(size: int, timers: map<int, Timer>, list: seq<int>, now: int): iset<int> {
    if list == [] then iset{0}
    else iset n: int | ExpiresNext(size, timers, list, now, n)
  }

  ghost predicate ExpiresNext(size: int, timers: map<int, Timer>, list: seq<int>, now: int, n: int) {
    size > 0 && exists d :: IsLeast(size, timers, list, now, d) && n == (now + d) % size
  }

  lemma LeastExpires(size: int, timers: map<int, Timer>, list: seq<int>, now: int, d: int, dist: int -> int)
    requires size > 0 && list != [] && forall x :: x in list ==> x in timers && dist(x) == Distance(size, timers[x], now)
    requires (forall x :: x in list ==> d <= dist(x)) && exists x :: x in list && d == dist(x)
    ensures (now + d) % size in Expirations(size, timers, list, now)
  {
    var x :| x in list && d == dist(x);
    assert IsLeast(size, timers, list, now, d);
  }

  /** The owners of timers do not matter for it. */
  lemma SameExpirations(size: int, timers: map<int, Timer>, timers': map<int, Timer>, list: seq<int>, now: int)
    requires size > 0 && forall x :: x in list ==>
               x in timers && x in timers' && timers'[x].start == timers[x].start && timers'[x].interval == timers[x].interval
    ensures Expirations(size, timers', list, now) == Expirations(size, timers, list, now)
  {
    if list != [] {
      forall d ensures IsLeast(size, timers', list, now, d) <==> IsLeast(size, timers, list, now, d) {
        SameLeast(size, timers, timers', list, now, d);
        SameLeast(size, timers', timers, list, now, d);
      }
    }
  }

  lemma SameLeast(size: int, timers: map<int, Timer>, timers': map<int, Timer>, list: seq<int>, now: int, d: int)
    requires size > 0 && forall x :: x in list ==>
               x in timers && x in timers' && timers'[x].start == timers[x].start && timers'[x].interval == timers[x].interval
    ensures IsLeast(size, timers, list, now, d) ==> IsLeast(size, timers', list, now, d)
  {
    if IsLeast(size, timers, list, now, d) {
      var x :| x in list && d == Distance(size, timers[x], now);
      assert d == Distance(size, timers'[x], now);
    }
  }

  /** When timers leave the list without update_time, as they do when their process exits,
      next_expiration stays right exactly when one of the timers left has the least distance
      of the old list, or when none is left and it happens to be 0. */
  lemma StaleExactly(size: int, timers: map<int, Timer>, list: seq<int>, rest: seq<int>, now: int, d: int)
    requires IsLeast(size, timers, list, now, d) && forall x :: x in rest ==> x in list
    ensures (now + d) % size in Expirations(size, timers, rest, now) <==>
            if rest == [] then (now + d) % size == 0
            else exists x :: x in rest && d == Distance(size, timers[x], now)
  {
    if rest != [] {
      if exists x :: x in rest && d == Distance(size, timers[x], now) {
        assert IsLeast(size, timers, rest, now, d);
      }
      if e :| IsLeast(size, timers, rest, now, e) && (now + d) % size == (now + e) % size {
        var x :| x in rest && e == Distance(size, timers[x], now);
        var y :| y in list && d == Distance(size, timers[y], now);
        ModInjective(now + d, now + e, size);
      }
    }
  }

  /** The loop of update_time: the least value of dist over a list. */
  method Least(next: map<int, int>, head: int, ghost list: seq<int>, dist: int -> int) returns (least: int)
    requires Chain(next, head, list) && list != []
    ensures forall x :: x in list ==> least <= dist(x)
    ensures exists x :: x in list && least == dist(x)
  {
    least := dist(head);
    var t := next[head];
    ghost var i, best := 1, list[0];
    while t != NULL
      invariant 1 <= i <= |list| && t == At(list, i)
      invariant best in list && least == dist(best)
      invariant forall j :: 0 <= j < i ==> least <= dist(list[j])
      decreases |list| - i
    {
      if dist(t) < least {
        least := dist(t);
        best := t;
      }
      t, i := next[t], i + 1;
    }
  }

  // ----- a poll pass, as a function of the list -----

  datatype Sweep = Sweep(posted: seq<int>, rest: seq<int>)

  /** The first `room` due timers in list order, and the others in order. */
  function SweepOf(list: seq<int>, due: set<int>, room: nat): Sweep
    decreases |list|
  {
    if list == [] then Sweep([], [])
    else if list[0] in due && room > 0 then
      var s := SweepOf(list[1..], due, room - 1);
      Sweep([list[0]] + s.posted, s.rest)
    else
      var s := SweepOf(list[1..], due, room);
      Sweep(s.posted, [list[0]] + s.rest)
  }

  /** Posting the first due timer and starting again sweeps the rest. */
  lemma {:induction false} SweepFirstDue(list: seq<int>, due: set<int>, room: nat, i: nat)
    requires i < |list| && list[i] in due && room > 0 && forall j :: 0 <= j < i ==> list[j] !in due
    ensures var s := SweepOf(list[..i] + list[i + 1..], due, room - 1);
            SweepOf(list, due, room) == Sweep([list[i]] + s.posted, s.rest)
    decreases i
  {
    var rest := list[..i] + list[i + 1..];
    if i == 0 {
      assert rest == list[1..];
    } else {
      SweepFirstDue(list[1..], due, room, i - 1);
      assert list[1..][..i - 1] + list[1..][i..] == rest[1..];
    }
  }

  lemma {:induction false} SweepNone(list: seq<int>, due: set<int>, room: nat)
    requires room == 0 || forall j :: 0 <= j < |list| ==> list[j] !in due
    ensures SweepOf(list, due, room) == Sweep([], list)
    decreases |list|
  {
    if list != [] { SweepNone(list[1..], due, room); }
  }

  function Among(list: seq<int>, s: set<int>): seq<int> {
    if list == [] then [] else (if list[0] in s then [list[0]] else []) + Among(list[1..], s)
  }

  function Excluding(list: seq<int>, s: set<int>): seq<int> {
    if list == [] then [] else (if list[0] in s then [] else [list[0]]) + Excluding(list[1..], s)
  }

  lemma {:induction false} ExcludingSkips(list: seq<int>, s: set<int>, i: nat)
    requires i < |list| && list[i] in s
    ensures Excluding(list[..i] + list[i + 1..], s) == Excluding(list, s)
  {
    var list' := list[..i] + list[i + 1..];
    if i == 0 {
      assert list' == list[1..];
    } else {
      ExcludingSkips(list[1..], s, i - 1);
      assert list'[1..] == list[1..][..i - 1] + list[1..][i..];
    }
  }

  lemma {:induction false} ExcludingNone(list: seq<int>, s: set<int>)
    requires forall i :: 0 <= i < |list| ==> list[i] !in s
    ensures Excluding(list, s) == list
  {
    if list != [] { ExcludingNone(list[1..], s); }
  }

  /** With room for all of them, a pass posts exactly the due timers, once each and in
      list order, and leaves exactly the others in order. */
  lemma {:induction false} SweepComplete(list: seq<int>, due: set<int>, room: nat)
    requires room >= |list|
    ensures SweepOf(list, due, room) == Sweep(Among(list, due), Excluding(list, due))
    decreases |list|
  {
    if list != [] { SweepComplete(list[1..], due, if list[0] in due then room - 1 else room); }
  }

  /** In any case nothing is lost or doubled, and at most `room` events are posted; a due
      timer stays only when the room is used up. */
  lemma {:induction false} SweepConserves(list: seq<int>, due: set<int>, room: nat)
    ensures var s := SweepOf(list, due, room);
            && multiset(s.posted) + multiset(s.rest) == multiset(list) && |s.posted| <= room
            && (forall x :: x in s.posted ==> x in due)
            && ((exists x :: x in s.rest && x in due) ==> |s.posted| == room)
    decreases |list|
  {
    if list != [] {
      var room' := if list[0] in due && room > 0 then room - 1 else room;
      SweepConserves(list[1..], due, room');
      assert list == [list[0]] + list[1..];
      var s := SweepOf(list[1..], due, room');
      assert multiset([list[0]] + s.posted) == multiset{list[0]} + multiset(s.posted);
      assert multiset([list[0]] + s.rest) == multiset{list[0]} + multiset(s.rest);
      if list[0] in due && room == 0 { SweepNone(list, due, 0); }
    }
  }

  /** The timers that are due. */
  ghost function Due(size: int, timers: map<int, Timer>, now: int): set<int>
    requires size > 0
  {
    set x | x in timers && Expired(size, timers[x], now)
  }

  ghost predicate AnyDue(list: seq<int>, due: set<int>) {
    exists i :: 0 <= i < |list| && list[i] in due
  }

  function Owner(timers: map<int, Timer>, x: int): int {
    if x in timers then timers[x].p else PROCESS_NONE
  }

  /** The events of posted timers, addressed to the owners they had. */
  function Posts(timers: map<int, Timer>, posted: seq<int>): seq<Post> {
    if posted == [] then []
    else Posts(timers, posted[..|posted| - 1]) + [Post(Owner(timers, posted[|posted| - 1]), posted[|posted| - 1])]
  }

  lemma PostsAppend(timers: map<int, Timer>, posted: seq<int>, x: int)
    ensures Posts(timers, posted + [x]) == Posts(timers, posted) + [Post(Owner(timers, x), x)]
  {
    assert (posted + [x])[..|posted|] == posted;
  }

  /** The timers after those in `posted` lost their owner. */
  ghost predicate Disowned(timers0: map<int, Timer>, timers: map<int, Timer>, posted: seq<int>) {
    && timers.Keys == timers0.Keys
    && forall x :: x in timers0 ==>
         timers[x] == if x in posted then timers0[x].(p := PROCESS_NONE) else timers0[x]
  }

  /** Where a poll pass stands. */
  datatype Pass = Pass(list: seq<int>, timers: map<int, Timer>, posted: seq<int>, left: nat)

  /** The points of a pass over (list, timers): what it will post from there on completes
      what it posts from the start. */
  ghost function Passes(list: seq<int>, timers: map<int, Timer>, due: set<int>, room: nat): iset<Pass> {
    iset a: Pass |
      && (var s := SweepOf(a.list, due, a.left);
          SweepOf(list, due, room) == Sweep(a.posted + s.posted, s.rest))
      && Disowned(timers, a.timers, a.posted)
      && forall x :: x in a.posted ==> x !in a.list
  }

  lemma PassStarts(list: seq<int>, timers: map<int, Timer>, due: set<int>, room: nat)
    ensures Pass(list, timers, [], room) in Passes(list, timers, due, room)
  {
    var s := SweepOf(list, due, room);
    assert [] + s.posted == s.posted;
  }

  lemma SweepsOn(list: seq<int>, due: set<int>, left: nat, posted: seq<int>, i: nat)
    requires i < |list| && left > 0 && list[i] in due && forall j :: 0 <= j < i ==> list[j] !in due
    requires forall a, b :: 0 <= a < b < |list| ==> list[a] != list[b]
    ensures var s, s' := SweepOf(list, due, left), SweepOf(Without(list, list[i]), due, left - 1);
            posted + s.posted == posted + [list[i]] + s'.posted && s.rest == s'.rest
  {
    SweepFirstDue(list, due, left, i);
    WithoutAt(list, list[i], i);
  }

  lemma PassGoesOn(list0: seq<int>, timers0: map<int, Timer>, due: set<int>, room: nat, a: Pass, i: nat)
    requires a in Passes(list0, timers0, due, room)
    requires i < |a.list| && a.left > 0 && a.list[i] in due && a.list[i] in a.timers
    requires forall j :: 0 <= j < i ==> a.list[j] !in due
    requires forall j, k :: 0 <= j < k < |a.list| ==> a.list[j] != a.list[k]
    ensures var x := a.list[i];
            && Pass(Without(a.list, x), a.timers[x := a.timers[x].(p := PROCESS_NONE)], a.posted + [x], a.left - 1)
               in Passes(list0, timers0, due, room)
            && Owner(a.timers, x) == Owner(timers0, x)
  {
    SweepsOn(a.list, due, a.left, a.posted, i);
  }

  lemma PassEnds(list0: seq<int>, timers0: map<int, Timer>, due: set<int>, room: nat, a: Pass)
    requires a in Passes(list0, timers0, due, room) && SweepOf(a.list, due, a.left) == Sweep([], a.list)
    ensures SweepOf(list0, due, room) == Sweep(a.posted, a.list) && Disowned(timers0, a.timers, a.posted)
  {
    assert a.posted + [] == a.posted;
  }

  lemma PassDisowned(list0: seq<int>, timers0: map<int, Timer>, due: set<int>, room: nat, a: Pass)
    requires a in Passes(list0, timers0, due, room)
    ensures Disowned(timers0, a.timers, a.posted)
  {}

  /** Being due does not depend on the owner. */
  lemma SameDue(size: int, timers0: map<int, Timer>, timers: map<int, Timer>, now: int, posted: seq<int>)
    requires size > 0 && Disowned(timers0, timers, posted)
    ensures Due(size, timers, now) == Due(size, timers0, now)
  {
    forall x | x in timers0 ensures Expired(size, timers[x], now) == Expired(size, timers0[x], now) {
      assert timers[x].start == timers0[x].start && timers[x].interval == timers0[x].interval;
    }
  }

  datatype Core = Core(shape: Shape, timers: map<int, Timer>)

  /** A well-formed list of owned timers. */
  ghost function Cores(): iset<Core> {
    iset c: Core |
      && c.shape in Shapes() && c.timers.Keys <= c.shape.next.Keys
      && forall x :: x in c.shape.items ==> x in c.timers && c.timers[x].p != PROCESS_NONE
  }

  lemma DisownedCore(c: Core, t: int)
    requires c in Cores() && t in c.timers && t !in c.shape.items
    ensures Core(c.shape.(next := c.shape.next[t := NULL]), c.timers[t := c.timers[t].(p := PROCESS_NONE)]) in Cores()
  {
    Outside(c.shape.next, c.shape.head, c.shape.items, t, NULL);
  }

  class Module {
    const clockSize: int
    var timerlist: int
    var nextExpiration: int
    var next: map<int, int>
    var timers: map<int, Timer>
    ghost var list: seq<int>

    ghost predicate Valid()
      reads this
    {
      clockSize > 0 && Core(Shape(next, timerlist, list), timers) in Cores()
    }

    constructor (clockSize: int, memory: map<int, Timer>)
      requires clockSize > 0
      ensures Valid() && list == [] && timers == memory && this.clockSize == clockSize
    {
      this.clockSize := clockSize;
      timerlist, nextExpiration, list := NULL, 0, [];
      timers, next := memory, map x | x in memory :: NULL;
    }

    /** next_expiration names the least distance over the list. */
    ghost predicate Updated(now: int)
      reads this
    {
      nextExpiration in Expirations(clockSize, timers, list, now)
    }

    /** update_time. */
    method UpdateTime(now: int)
      requires Valid()
      modifies this`nextExpiration
      ensures Valid() && Updated(now)
    {
      if timerlist == NULL {
        nextExpiration := 0;
      } else {
        var size, ts := clockSize, timers;
        var dist := (x: int) => if x in ts && size > 0 then Distance(size, ts[x], now) else 0;
        var tdist := Least(next, timerlist, list, dist);
        LeastExpires(clockSize, timers, list, now, tdist, dist);
        nextExpiration := (now + tdist) % clockSize;
      }
    }

    /** add_timer for the running process: a timer is on the list once, at the front when
        it was not there. */
    method AddTimer(timer: int, current: int, now: int)
      requires Valid() && timer in timers && timer != NULL && current != PROCESS_NONE
      modifies this
      ensures Valid() && Updated(now)
      ensures list == if timer in old(list) then old(list) else [timer] + old(list)
      ensures timers == old(timers)[timer := old(timers)[timer].(p := current)]
    {
      var found := false;
      if timers[timer].p != PROCESS_NONE {
        var t := timerlist;
        ghost var i := 0;
        while t != NULL && t != timer
          invariant 0 <= i <= |list| && t == At(list, i) && timer !in list[..i]
          decreases |list| - i
        {
          t, i := next[t], i + 1;
        }
        found := t != NULL;
        assert t == NULL ==> list[..i] == list;
      }
      timers := timers[timer := timers[timer].(p := current)];
      if !found {
        Pushed(next, timerlist, list, timer);
        next := next[timer := timerlist];
        timerlist := timer;
        list := [timer] + list;
      }
      UpdateTime(now);
    }

    /** etimer_set. */
    method Set(timer: int, interval: int, current: int, now: int)
      requires Valid() && timer in timers && timer != NULL && current != PROCESS_NONE
      modifies this
      ensures Valid() && Updated(now)
      ensures list == if timer in old(list) then old(list) else [timer] + old(list)
      ensures timers == old(timers)[timer := Timer(current, now, interval)]
    {
      timers := timers[timer := timers[timer].(start := now, interval := interval)];
      AddTimer(timer, current, now);
    }

    /** etimer_stop: next_expiration is up to date if the timer was on the list. */
    method Stop(timer: int, now: int)
      requires Valid() && timer in timers && timer != NULL
      modifies this
      ensures Valid() && list == Without(old(list), timer)
      ensures timers == old(timers)[timer := old(timers)[timer].(p := PROCESS_NONE)]
      ensures if timer in old(list) then Updated(now) else nextExpiration == old(nextExpiration)
    {
      Unlink(timer, now);
      SameExpirations(clockSize, timers, timers[timer := timers[timer].(p := PROCESS_NONE)], list, now);
      Disown(timer);
    }

    /** The first half of etimer_stop. */
    method Unlink(timer: int, now: int)
      requires Valid() && timer in timers && timer != NULL
      modifies this`timerlist, this`next, this`list, this`nextExpiration
      ensures Valid() && list == Without(old(list), timer)
      ensures if timer in old(list) then Updated(now) else nextExpiration == old(nextExpiration)
    {
      if timer == timerlist {
        RemoveFirst();
        UpdateTime(now);
      } else {
        var t := timerlist;
        ghost var i := 0;
        while t != NULL && next[t] != timer
          invariant 0 <= i <= |list| && t == At(list, i) && timer !in list[..i] && (t != NULL ==> t != timer)
          decreases |list| - i
        {
          t, i := next[t], i + 1;
        }
        if t != NULL {
          RemoveAfter(t, i);
          UpdateTime(now);
        } else {
          assert list[..i] == list;
          WithoutNone(list, timer);
        }
      }
    }

    /** A timer off the list points nowhere and belongs to no process. */
    method Disown(t: int)
      requires Valid() && t in timers && t !in list
      modifies this`next, this`timers
      ensures Valid() && timers == old(timers)[t := old(timers)[t].(p := PROCESS_NONE)]
    {
      DisownedCore(Core(Shape(next, timerlist, list), timers), t);
      next := next[t := NULL];
      timers := timers[t := timers[t].(p := PROCESS_NONE)];
    }

    /** The first timer leaves the list. */
    method RemoveFirst()
      requires Valid() && list != []
      modifies this`timerlist, this`list
      ensures Valid() && old(list) != [] && list == Without(old(list), old(list[0])) && list == old(list)[1..]
    {
      WithoutAt(list, list[0], 0);
      Unlinked(next, timerlist, list, 0);
      timerlist := next[timerlist];
      list := list[..0] + list[1..];
    }

    /** The timer behind t leaves the list. */
    method RemoveAfter(t: int, ghost i: int)
      requires Valid() && 0 <= i < |list| - 1 && t == list[i]
      modifies this`next, this`list
      ensures Valid() && next.Keys == old(next.Keys)
      ensures list == old(list)[..i + 1] + old(list)[i + 2..] && list == Without(old(list), old(list)[i + 1])
    {
      WithoutAt(list, list[i + 1], i + 1);
      Unlinked(next, timerlist, list, i + 1);
      next := next[t := next[next[t]]];
      list := list[..i + 1] + list[i + 2..];
    }

    /** The scan from `again`: the first expired timer whose event the queue accepts. */
    method FindExpired(now: int, room: nat) returns (t: int, u: int, ghost i: int, refused: bool)
      requires Valid()
      ensures 0 <= i <= |list| && t == At(list, i) && u == At(list, i - 1)
      ensures forall j :: 0 <= j < i ==> room == 0 || list[j] !in Due(clockSize, timers, now)
      ensures t != NULL ==> room > 0 && t in Due(clockSize, timers, now)
      ensures t == NULL ==> refused == AnyDue(list, Due(clockSize, timers, now))
    {
      u, t, i, refused := NULL, timerlist, 0, false;
      while t != NULL
        invariant 0 <= i <= |list| && t == At(list, i) && u == At(list, i - 1)
        invariant forall j :: 0 <= j < i ==> room == 0 || list[j] !in Due(clockSize, timers, now)
        invariant refused <==> exists j :: 0 <= j < i && list[j] in Due(clockSize, timers, now)
        decreases |list| - i
      {
        if Expired(clockSize, timers[t], now) {
          if room > 0 { return; }
          refused := true;
        }
        u, t, i := t, next[t], i + 1;
      }
    }

    /** Taking timer t, whose predecessor is u, off the list after its event was posted. */
    method TakeOff(t: int, u: int, ghost i: int, now: int)
      requires Valid() && 0 <= i < |list| && t == list[i] && u == At(list, i - 1)
      modifies this
      ensures Valid() && Updated(now) && list == Without(old(list), t)
      ensures timers == old(timers)[t := old(timers)[t].(p := PROCESS_NONE)]
    {
      if u != NULL { RemoveAfter(u, i - 1); } else { RemoveFirst(); }
      Disown(t);
      UpdateTime(now);
    }

    /** An expired timer is posted to its owner and taken off. */
    method PostExpired(t: int, u: int, ghost i: int, now: int, ghost a: Pass, ghost list0: seq<int>,
                       ghost timers0: map<int, Timer>, ghost due: set<int>, ghost room: nat) returns (p: int)
      requires Valid() && a.list == list && a.timers == timers && a in Passes(list0, timers0, due, room)
      requires 0 <= i < |list| && t == list[i] && u == At(list, i - 1) && a.left > 0 && t in due
      requires forall j :: 0 <= j < i ==> list[j] !in due
      modifies this
      ensures Valid() && |list| < |old(list)| && p == Owner(timers0, t) && Updated(now)
      ensures Pass(list, timers, a.posted + [t], a.left - 1) in Passes(list0, timers0, due, room)
    {
      PassGoesOn(list0, timers0, due, room, a, i);
      WithoutAt(list, t, i);
      p := timers[t].p;
      TakeOff(t, u, i, now);
      assert Pass(list, timers, a.posted + [t], a.left - 1) ==
             Pass(Without(a.list, t), a.timers[t := a.timers[t].(p := PROCESS_NONE)], a.posted + [t], a.left - 1);
    }

    /** One round from `again`: an event is posted to the owner of an expired timer and the
        timer is taken off, or the pass is over. */
    method PostNext(now: int, left: nat, ghost list0: seq<int>, ghost timers0: map<int, Timer>, ghost due: set<int>,
                    ghost room: nat, ghost posted: seq<int>) returns (t: int, p: int, refused: bool)
      requires Valid() && due == Due(clockSize, timers0, now)
      requires Pass(list, timers, posted, left) in Passes(list0, timers0, due, room)
      modifies this
      ensures Valid()
      ensures t == NULL ==>
                && list == old(list) && timers == old(timers) && nextExpiration == old(nextExpiration)
                && SweepOf(list, due, left) == Sweep([], list) && refused == AnyDue(list, due)
      ensures t != NULL ==>
                && left > 0 && |list| < |old(list)| && p == Owner(timers0, t) && Updated(now)
                && Pass(list, timers, posted + [t], left - 1) in Passes(list0, timers0, due, room)
    {
      var u;
      ghost var i;
      t, u, i, refused := FindExpired(now, left);
      PassDisowned(list0, timers0, due, room, Pass(list, timers, posted, left));
      SameDue(clockSize, timers0, timers, now, posted);
      p := PROCESS_NONE;
      if t == NULL {
        SweepNone(list, due, left);
      } else {
        p := PostExpired(t, u, i, now, Pass(list, timers, posted, left), list0, timers0, due, room);
      }
    }

    /** The poll handling of etimer_process, for a clock that stands still and a queue with
        room for `room` events: the due timers are posted to their owners in list order as
        far as there is room, everything else stays on the list in order. */
    method Poll(now: int, room: nat) returns (posts: seq<Post>, refused: bool)
      requires Valid()
      modifies this
      ensures Valid()
      ensures var s := SweepOf(old(list), old(Due(clockSize, timers, now)), room);
              && list == s.rest && posts == Posts(old(timers), s.posted)
              && Disowned(old(timers), timers, s.posted) && (s.posted != [] ==> Updated(now))
      ensures refused == AnyDue(list, old(Due(clockSize, timers, now)))
    {
      PassStarts(list, timers, Due(clockSize, timers, now), room);
      ghost var posted;
      posts, refused, posted := Rounds(now, room, list, timers, Due(clockSize, timers, now));
    }

    /** The rounds from `again` on. */
    method Rounds(now: int, room: nat, ghost list0: seq<int>, ghost timers0: map<int, Timer>, ghost due: set<int>)
        returns (posts: seq<Post>, refused: bool, ghost posted: seq<int>)
      requires Valid() && due == Due(clockSize, timers0, now)
      requires Pass(list, timers, [], room) in Passes(list0, timers0, due, room)
      modifies this
      ensures Valid() && SweepOf(list0, due, room) == Sweep(posted, list) && Disowned(timers0, timers, posted)
      ensures posts == Posts(timers0, posted) && (posted != [] ==> Updated(now)) && refused == AnyDue(list, due)
    {
      var left := room;
      posts, refused, posted := [], false, [];
      while true
        invariant Valid() && Pass(list, timers, posted, left) in Passes(list0, timers0, due, room)
        invariant posts == Posts(timers0, posted) && (posted != [] ==> Updated(now))
        decreases |list|
      {
        var t, p;
        t, p, refused := PostNext(now, left, list0, timers0, due, room, posted);
        if t == NULL { break; }
        PostsAppend(timers0, posted, t);
        posts := posts + [Post(p, t)];
        posted, left := posted + [t], left - 1;
      }
      PassEnds(list0, timers0, due, room, Pass(list, timers, posted, left));
    }

    /** The EXITED handling of etimer_process: the timers of process p leave the list, the
        others stay in order. */
    method Exited(p: int)
      requires Valid()
      modifies this`timerlist, this`next, this`list
      ensures Valid() && list == Excluding(old(list), set x | x in timers && timers[x].p == p)
    {
      ghost var gone := set x | x in timers && timers[x].p == p;
      while timerlist != NULL && timers[timerlist].p == p
        invariant Valid() && Excluding(list, gone) == Excluding(old(list), gone)
        decreases |list|
      {
        ExcludingSkips(list, gone, 0);
        assert list[..0] + list[1..] == list[1..];
        RemoveFirst();
      }
      if timerlist != NULL {
        var t := timerlist;
        ghost var i := 0;
        while next[t] != NULL
          invariant Valid() && Excluding(list, gone) == Excluding(old(list), gone)
          invariant 0 <= i < |list| && t == list[i] && forall j :: 0 <= j <= i ==> list[j] !in gone
          decreases |list| - i
        {
          if timers[next[t]].p == p {
            ExcludingSkips(list, gone, i + 1);
            RemoveAfter(t, i);
          } else {
            t, i := next[t], i + 1;
          }
        }
      }
      ExcludingNone(list, gone);
    }
  }
}
