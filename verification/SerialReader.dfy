/** The consumer of contiki-ng/os/dev/serial-line.c.  A finished line is broadcast as a
    pointer to the line buffer, so its handlers see what the buffer holds when they run.
    The consumer waits for them by posting itself an event; either post fails when the
    event queue has no free slot (contiki-ng/os/sys/process.c). */
module SerialReader {
  import opened Bits
  import opened SerialLines

  /** What becomes of a line: its broadcast was refused, it was broadcast but the consumer
      goes on at once, or it was broadcast and the consumer waits. */
  datatype Fate = Lost | Exposed | Kept

  /** Handlers of line number `line` ran and saw `text`. */
  datatype Sight = Sight(line: nat, text: seq<Byte>)

  /** The buffer and position, whether the consumer waits; the lines it finished with their
      fates, the broadcasts in the event queue, and what handlers have seen. */
  datatype Reader = Reader(buf: seq<Byte>, ptr: nat, waiting: bool, lines: seq<seq<Byte>>, fates: seq<Fate>,
                           queue: seq<nat>, seen: seq<Sight>)

  /** The string at the start of a buffer. */
  function Text(b: seq<Byte>): seq<Byte> {
    if b == [] || b[0] == 0 then [] else [b[0]] + Text(b[1..])
  }

  /** The string ends at the first zero, wherever that is. */
  lemma {:induction false} TextExactly(b: seq<Byte>, rest: seq<Byte>)
    requires 0 !in b && (rest == [] || rest[0] == 0)
    ensures Text(b + rest) == b
    decreases |b|
  {
    if b == [] {
      assert b + rest == rest;
    } else {
      TextExactly(b[1..], rest);
      assert (b + rest)[1..] == b[1..] + rest && b == [b[0]] + b[1..];
    }
  }

  /** The part of a line that is in the buffer. */
  function Part(t: Reader): seq<Byte> {
    if t.waiting || t.ptr > |t.buf| then [] else t.buf[..t.ptr]
  }

  function FateOf(free: nat): Fate {
    if free == 0 then Lost else if free == 1 then Exposed else Kept
  }

  /** The line end, with `free` slots in the event queue: one for the broadcast and one for
      the event to wait for. */
  function Posted(t: Reader, free: nat): Reader
    requires t.ptr < |t.buf|
  {
    t.(buf := t.buf[t.ptr := 0], ptr := if free >= 2 then t.ptr + 1 else 0, waiting := free >= 2,
    lines := t.lines + [t.buf[..t.ptr]], fates := t.fates + [FateOf(free)],
    queue := t.queue + if free >= 1 then [|t.lines|] else [])
  }

  /** One byte taken from the ring. */
  function Taken(t: Reader, c: Byte, free: nat): Reader
    requires t.ptr < |t.buf|
  {
    if c == END then Posted(t, free)
    else if t.ptr < |t.buf| - 1 then t.(buf := t.buf[t.ptr := c], ptr := t.ptr + 1)
    else t
  }

  datatype Event = Take(c: Byte, free: nat) | Handle | Resume

  /** The event queue is first in first out, so the consumer resumes after the handlers of
      all earlier broadcasts. */
  predicate Enabled(t: Reader, e: Event) {
    match e
    case Take(_, _) => !t.waiting && t.ptr < |t.buf|
    case Handle => t.queue != []
    case Resume => t.waiting && t.queue == []
  }

  function Step(t: Reader, e: Event): Reader
    requires Enabled(t, e)
  {
    match e
    case Take(c, free) => Taken(t, c, free)
    case Handle => t.(seen := t.seen + [Sight(t.queue[0], Text(t.buf))], queue := t.queue[1..])
    case Resume => t.(ptr := 0, waiting := false)
  }

  predicate Possible(t: Reader, es: seq<Event>)
    decreases |es|
  {
    es == [] || (Enabled(t, es[0]) && Possible(Step(t, es[0]), es[1..]))
  }

  function Run(t: Reader, es: seq<Event>): Reader
    requires Possible(t, es)
    decreases |es|
  {
    if es == [] then t else Run(Step(t, es[0]), es[1..])
  }

  // ----- what every step keeps -----

  /** The numbers of the lines that were broadcast. */
  function Sent(fates: seq<Fate>): seq<nat> {
    if fates == [] then []
    else Sent(fates[..|fates| - 1]) + if fates[|fates| - 1] != Lost then [|fates| - 1] else []
  }

  function LinesOf(seen: seq<Sight>): seq<nat> {
    if seen == [] then [] else LinesOf(seen[..|seen| - 1]) + [seen[|seen| - 1].line]
  }

  /** A line whose broadcast the consumer waits on is seen as it was. */
  ghost predicate SeenRight(t: Reader, i: int)
    requires 0 <= i < |t.seen|
  {
    var x := t.seen[i];
    x.line < |t.lines| == |t.fates| && (t.fates[x.line] == Kept ==> x.text == Text(t.lines[x.line]))
  }

  ghost predicate Inv(t: Reader) {
    && |t.buf| > 0 && t.buf[|t.buf| - 1] == 0 && |t.fates| == |t.lines|
    && (!t.waiting ==> t.ptr < |t.buf|)
    && LinesOf(t.seen) + t.queue == Sent(t.fates)
    && (forall i :: 0 <= i < |t.seen| ==> SeenRight(t, i))
    && (forall i :: 0 <= i < |t.queue| ==>
          t.queue[i] < |t.fates| && (t.fates[t.queue[i]] == Kept ==> t.waiting && t.queue[i] == |t.lines| - 1))
    && (t.waiting ==> |t.lines| > 0 && Text(t.buf) == Text(t.lines[|t.lines| - 1]))
  }

  /** A string ends at a zero. */
  lemma {:induction false} TextCut(b: seq<Byte>, n: nat)
    requires n < |b| && b[n] == 0
    ensures Text(b) == Text(b[..n])
    decreases n
  {
    if n > 0 && b[0] != 0 {
      TextCut(b[1..], n - 1);
      assert b[1..][..n - 1] == b[..n][1..];
    }
  }

  lemma SentNext(fates: seq<Fate>, f: Fate)
    ensures Sent(fates + [f]) == Sent(fates) + if f != Lost then [|fates|] else []
  {
    assert (fates + [f])[..|fates|] == fates;
  }

  lemma LinesOfNext(seen: seq<Sight>, x: Sight)
    ensures LinesOf(seen + [x]) == LinesOf(seen) + [x.line]
  {
    assert (seen + [x])[..|seen|] == seen;
  }

  lemma PostedInv(t: Reader, free: nat)
    requires Inv(t) && !t.waiting
    ensures Inv(Posted(t, free))
  {
    var u, n := Posted(t, free), |t.lines|;
    SentNext(t.fates, FateOf(free));
    TextCut(u.buf, t.ptr);
    assert u.buf[..t.ptr] == t.buf[..t.ptr];
    assert LinesOf(u.seen) + u.queue == Sent(u.fates);
    forall i | 0 <= i < |u.seen| ensures SeenRight(u, i) { assert SeenRight(t, i); }
  }

  lemma HandleInv(t: Reader)
    requires Inv(t) && t.queue != []
    ensures Inv(Step(t, Handle))
  {
    var u, x := Step(t, Handle), Sight(t.queue[0], Text(t.buf));
    LinesOfNext(t.seen, x);
    assert LinesOf(u.seen) + u.queue == LinesOf(t.seen) + t.queue;
    forall i | 0 <= i < |u.seen| ensures SeenRight(u, i) { if i < |t.seen| { assert SeenRight(t, i); } }
  }

  lemma StepInv(t: Reader, e: Event)
    requires Inv(t) && Enabled(t, e)
    ensures Inv(Step(t, e))
  {
    match e
    case Take(c, free) =>
      if c == END { PostedInv(t, free); }
      else {
        var u := Taken(t, c, free);
        forall i | 0 <= i < |u.seen| ensures SeenRight(u, i) { assert SeenRight(t, i); }
      }
    case Handle => HandleInv(t);
    case Resume =>
      var u := Step(t, e);
      forall i | 0 <= i < |u.seen| ensures SeenRight(u, i) { assert SeenRight(t, i); }
  }

  lemma {:induction false} RunInv(t: Reader, es: seq<Event>)
    requires Inv(t) && Possible(t, es)
    ensures Inv(Run(t, es))
    ensures t.lines <= Run(t, es).lines && t.fates <= Run(t, es).fates
    decreases |es|
  {
    if es != [] {
      StepInv(t, es[0]);
      RunInv(Step(t, es[0]), es[1..]);
    }
  }

  // ----- exactly when a line arrives as it was -----

  lemma {:induction false} SentExactly(fates: seq<Fate>, i: nat)
    ensures i in Sent(fates) <==> i < |fates| && fates[i] != Lost
  {
    if fates != [] { SentExactly(fates[..|fates| - 1], i); }
  }

  lemma {:induction false} InLinesOf(seen: seq<Sight>, i: nat)
    ensures i in LinesOf(seen) <==> exists j :: 0 <= j < |seen| && seen[j].line == i
  {
    if seen != [] {
      var u := seen[..|seen| - 1];
      InLinesOf(u, i);
      if j :| 0 <= j < |u| && u[j].line == i { assert seen[j].line == i; }
    }
  }

  /** Line i was seen as it was, or its broadcast still waits. */
  ghost predicate Intact(t: Reader, i: nat)
    requires i < |t.lines|
  {
    i in t.queue || Sight(i, Text(t.lines[i])) in t.seen
  }

  lemma KeptIsIntact(t: Reader, i: nat)
    requires Inv(t) && i < |t.lines| && t.fates[i] == Kept
    ensures Intact(t, i)
  {
    SentExactly(t.fates, i);
    if i !in t.queue {
      assert i in LinesOf(t.seen) + t.queue;
      InLinesOf(t.seen, i);
      var j :| 0 <= j < |t.seen| && t.seen[j].line == i;
      assert SeenRight(t, j);
    }
  }

  lemma LostIsGone(t: Reader, i: nat)
    requires Inv(t) && i < |t.lines| && t.fates[i] == Lost
    ensures i !in t.queue && forall j :: 0 <= j < |t.seen| ==> t.seen[j].line != i
  {
    SentExactly(t.fates, i);
    assert i !in LinesOf(t.seen) + t.queue;
    InLinesOf(t.seen, i);
  }

  function Handles(n: nat): seq<Event> {
    if n == 0 then [] else [Handle] + Handles(n - 1)
  }

  /** All broadcasts in the queue are handled: they all show the buffer as it is. */
  lemma {:induction false} HandleAll(t: Reader)
    ensures Possible(t, Handles(|t.queue|))
    ensures var u := Run(t, Handles(|t.queue|));
            && u.queue == [] && u.lines == t.lines && u.fates == t.fates
            && |u.seen| == |t.seen| + |t.queue| && u.seen[..|t.seen|] == t.seen
            && forall j :: |t.seen| <= j < |u.seen| ==> u.seen[j].text == Text(t.buf)
    decreases |t.queue|
  {
    if t.queue != [] {
      var n := |t.queue|;
      assert Handles(n)[1..] == Handles(n - 1);
      HandleAll(Step(t, Handle));
    }
  }

  /** One more byte after a line that nobody waits for, and then the handlers: they see a
      text that begins with that byte. */
  lemma Overwritten(t: Reader, d: Byte) returns (es: seq<Event>)
    requires Inv(t) && !t.waiting && t.ptr == 0 && |t.buf| >= 2 && d != END && d != 0
    ensures Possible(t, es)
    ensures var u := Run(t, es);
            && u.queue == [] && u.lines == t.lines && |u.seen| >= |t.seen| && u.seen[..|t.seen|] == t.seen
            && forall j :: |t.seen| <= j < |u.seen| ==> u.seen[j].text != [] && u.seen[j].text[0] == d
  {
    var e := Take(d, 0);
    var t1 := Step(t, e);
    StepInv(t, e);
    HandleAll(t1);
    es := [e] + Handles(|t1.queue|);
    assert es[1..] == Handles(|t1.queue|);
  }

  /** The line that ends now is seen as it was in every continuation if and only if the
      event queue has two free slots: with none it is lost, with one its buffer can be
      overwritten before its handlers run. */
  lemma IntactExactlyWithTwoSlots(t: Reader, free: nat)
    requires Inv(t) && !t.waiting && |t.buf| >= 2
    ensures free >= 2 <==> forall es :: Possible(Posted(t, free), es) ==> IntactAfter(Posted(t, free), es, |t.lines|)
  {
    PostedInv(t, free);
    var u, i := Posted(t, free), |t.lines|;
    if free >= 2 {
      forall es | Possible(u, es) ensures IntactAfter(u, es, i) {
        RunInv(u, es);
        KeptIsIntact(Run(u, es), i);
      }
    } else if free == 0 {
      LostIsGone(u, i);
      assert Possible(u, []) && !IntactAfter(u, [], i);
    } else {
      ExposedIsOverwritten(t);
    }
  }

  ghost predicate IntactAfter(t: Reader, es: seq<Event>, i: nat)
    requires Possible(t, es)
  {
    i < |Run(t, es).lines| && Intact(Run(t, es), i)
  }

  lemma ExposedIsOverwritten(t: Reader)
    requires Inv(t) && !t.waiting && |t.buf| >= 2
    ensures exists es :: Possible(Posted(t, 1), es) && !IntactAfter(Posted(t, 1), es, |t.lines|)
  {
    PostedInv(t, 1);
    var u, i := Posted(t, 1), |t.lines|;
    var text := Text(u.lines[i]);
    var d: Byte := if text != [] && text[0] == 1 then 2 else 1;
    var es := Overwritten(u, d);
    var v := Run(u, es);
    forall j | 0 <= j < |t.seen| ensures v.seen[j].line < i {
      assert SeenRight(t, j) && v.seen[j] == v.seen[..|t.seen|][j];
    }
    assert !IntactAfter(u, es, i);
  }
}
