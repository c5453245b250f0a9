/** The serial line driver of contiki-ng/os/dev/serial-line.c: producer, ring buffer and
    consumer together, once as objects whose calls are not interrupted and once at the
    granularity of single memory accesses. */
module SerialLine {
  import opened Arith
  import opened Bits
  import R = RingBuf
  import opened SerialLines
  import opened SerialReader

  /** What the reader has made of the bytes taken from the ring. */
  ghost predicate Reads(t: Reader, returned: seq<Byte>) {
    |t.buf| > 0 && Inv(t) && Output(t.lines, Part(t)) == Delivered(returned, |t.buf| - 1)
  }

  ghost function Readers(returned: seq<Byte>): iset<Reader> {
    iset t: Reader | Reads(t, returned)
  }

  lemma TakeReads(t: Reader, returned: seq<Byte>, c: Byte, free: nat)
    requires t in Readers(returned) && !t.waiting
    ensures t.ptr < |t.buf| && Taken(t, c, free) in Readers(returned + [c])
  {
    StepInv(t, Take(c, free));
    DeliveredAppend(returned, c, |t.buf| - 1);
    var u := Taken(t, c, free);
    if c != END && t.ptr < |t.buf| - 1 { assert u.buf[..u.ptr] == t.buf[..t.ptr] + [c]; }
  }

  lemma HandleReads(t: Reader, returned: seq<Byte>)
    requires t in Readers(returned) && t.queue != []
    ensures Step(t, Handle) in Readers(returned)
  {
    StepInv(t, Handle);
  }

  lemma ResumeReads(t: Reader, returned: seq<Byte>)
    requires t in Readers(returned) && Enabled(t, Resume)
    ensures Step(t, Resume) in Readers(returned)
  {
    StepInv(t, Resume);
  }

  // ----- what handlers have seen -----

  /** Every line that handlers saw with the consumer waiting for them is the beginning of one
      single input line, and such lines come from strictly rising input lines. */
  ghost predicate Unspliced(g: Log, t: Reader) {
    && |t.lines| <= |g.ids| && |t.fates| == |t.lines|
    && (forall j {:trigger t.seen[j]} :: 0 <= j < |t.seen| ==> t.seen[j].line < |t.lines|)
    && (forall j {:trigger t.seen[j]} :: 0 <= j < |t.seen| && t.fates[t.seen[j].line] == Kept ==>
          PrefixOfInput(g, t.seen[j].line, t.seen[j].text))
    && (forall i, j :: 0 <= i < j < |t.seen| ==> t.seen[i].line < t.seen[j].line)
    && (forall i, j :: 0 <= i < j < |t.lines| ==> g.ids[i] < g.ids[j])
  }

  ghost predicate PrefixOfInput(g: Log, line: nat, text: seq<Byte>)
    requires line < |g.ids|
  {
    g.ids[line] < |Split(g.input).done| && text <= Split(g.input).done[g.ids[line]]
  }

  lemma {:induction false} TextPrefix(b: seq<Byte>)
    ensures Text(b) <= b
  {
    if b != [] && b[0] != 0 { TextPrefix(b[1..]); }
  }

  lemma {:induction false} SentRises(fates: seq<Fate>, i: nat, j: nat)
    requires i < j < |Sent(fates)|
    ensures Sent(fates)[i] < Sent(fates)[j]
  {
    var u := fates[..|fates| - 1];
    SentExactly(u, Sent(fates)[i]);
    if j < |Sent(u)| { SentRises(u, i, j); } else { assert Sent(fates)[i] == Sent(u)[i]; }
  }

  lemma {:induction false} LinesOfAt(seen: seq<Sight>, i: nat)
    requires i < |seen|
    ensures |LinesOf(seen)| == |seen| && LinesOf(seen)[i] == seen[i].line
  {
    if |seen| > 1 { LinesOfAt(seen[..|seen| - 1], if i < |seen| - 1 then i else 0); }
  }

  /** A finished line of the reader is the beginning of its input line. */
  lemma LineIsPrefix(g: Log, acc: seq<Byte>, overflow: bool, ret: seq<Byte>, t: Reader, i: nat)
    requires g in Logs(acc, overflow) && ret <= acc && t in Readers(ret) && i < |t.lines|
    ensures |t.lines| <= |g.ids| && PrefixOfInput(g, i, t.lines[i])
  {
    SplitPrefix(ret, acc);
    CutAllAt(Split(ret).done, |t.buf| - 1, i);
    assert Split(ret).done[i] == Split(acc).done[i];
    assert g.ids[i] < |Split(g.input).done|;
  }

  lemma NeverSpliced(g: Log, acc: seq<Byte>, overflow: bool, ret: seq<Byte>, t: Reader)
    requires g in Logs(acc, overflow) && ret <= acc && t in Readers(ret)
    ensures Unspliced(g, t)
  {
    SplitPrefix(ret, acc);
    forall j | 0 <= j < |t.seen| ensures t.seen[j].line < |t.lines| { assert SeenRight(t, j); }
    forall j | 0 <= j < |t.seen| && t.fates[t.seen[j].line] == Kept
      ensures PrefixOfInput(g, t.seen[j].line, t.seen[j].text)
    {
      assert SeenRight(t, j);
      LineIsPrefix(g, acc, overflow, ret, t, t.seen[j].line);
      TextPrefix(t.lines[t.seen[j].line]);
    }
    forall i, j | 0 <= i < j < |t.seen| ensures t.seen[i].line < t.seen[j].line { SeenRises(t, i, j); }
  }

  lemma SeenRises(t: Reader, i: nat, j: nat)
    requires Inv(t) && i < j < |t.seen|
    ensures t.seen[i].line < t.seen[j].line
  {
    LinesOfAt(t.seen, i);
    LinesOfAt(t.seen, j);
    assert LinesOf(t.seen)[i] == Sent(t.fates)[i] && LinesOf(t.seen)[j] == Sent(t.fates)[j];
    SentRises(t.fates, i, j);
  }

  /** Every line was seen once, in order, cut to the buffer. */
  ghost predicate AllSeen(lines: seq<seq<Byte>>, t: Reader) {
    && |t.seen| == |lines| && |t.buf| > 0
    && forall i :: 0 <= i < |t.seen| ==> t.seen[i] == Sight(i, Text(Cut(lines[i], |t.buf| - 1)))
  }

  /** If the ring refused no byte and the event queue no post, then, with everything taken
      and handled, every input line was seen once, in order, cut to the buffer. */
  lemma CompleteWhenNothingRefused(g: Log, acc: seq<Byte>, overflow: bool, t: Reader)
    requires g in Logs(acc, overflow) && t in Readers(acc) && t.queue == []
    requires !g.lost && forall i :: 0 <= i < |t.fates| ==> t.fates[i] == Kept
    ensures AllSeen(Split(g.input).done, t)
  {
    AllSent(t.fates);
    assert LinesOf(t.seen) == LinesOf(t.seen) + t.queue == Sent(t.fates);
    if t.seen != [] { LinesOfAt(t.seen, 0); }
    forall i | 0 <= i < |t.seen| ensures t.seen[i] == Sight(i, Text(Cut(Split(g.input).done[i], |t.buf| - 1))) {
      LinesOfAt(t.seen, i);
      assert SeenRight(t, i);
      CutAllAt(Split(acc).done, |t.buf| - 1, i);
    }
  }

  lemma {:induction false} AllSent(fates: seq<Fate>)
    requires forall i :: 0 <= i < |fates| ==> fates[i] == Kept
    ensures |Sent(fates)| == |fates| && forall i :: 0 <= i < |fates| ==> Sent(fates)[i] == i
  {
    if fates != [] { AllSent(fates[..|fates| - 1]); }
  }

  // ----- histories -----

  /** A byte other than CR arrived; it was let through or not. */
  datatype Arrival = Arrival(c: Byte, ok: bool)

  function Init<T>(h: seq<T>): seq<T>
    requires h != []
  {
    h[..|h| - 1]
  }

  function Last<T>(h: seq<T>): T
    requires h != []
  {
    h[|h| - 1]
  }

  /** The overflow flag after a history of arrivals. */
  predicate Overflow(p: seq<Arrival>) { p != [] && !Last(p).ok }

  function Accepted(p: seq<Arrival>): seq<Byte> {
    if p == [] then [] else Accepted(Init(p)) + if Last(p).ok then [Last(p).c] else []
  }

  function LogOf(p: seq<Arrival>): Log {
    if p == [] then Log([], [], 0, false) else Logged(LogOf(Init(p)), Last(p).c, Last(p).ok)
  }

  /** After an overflow only a line end is let through. */
  predicate Dropping(p: seq<Arrival>) {
    p == [] || (Dropping(Init(p)) && (Overflow(Init(p)) && Last(p).ok ==> Last(p).c == END))
  }

  lemma {:induction false} LogExplains(p: seq<Arrival>)
    requires Dropping(p)
    ensures LogOf(p) in Logs(Accepted(p), Overflow(p))
  {
    if p != [] {
      var q, a := Init(p), Last(p);
      LogExplains(q);
      LogStep(LogOf(q), Accepted(q), Overflow(q), a, Logged(LogOf(q), a.c, a.ok), Accepted(q) + if a.ok then [a.c] else []);
    } else {
      NothingLogged();
    }
  }

  lemma NothingLogged()
    ensures Log([], [], 0, false) in Logs([], false)
  {}

  lemma LogStep(g: Log, acc: seq<Byte>, overflow: bool, a: Arrival, g': Log, acc': seq<Byte>)
    requires g in Logs(acc, overflow) && (overflow && a.ok ==> a.c == END)
    requires g' == Logged(g, a.c, a.ok) && acc' == acc + if a.ok then [a.c] else []
    ensures g' in Logs(acc', !a.ok)
  {
    Received(g, acc, overflow, a.c, a.ok);
    if !a.ok { assert acc' == acc; }
  }

  lemma Arrives(p: seq<Arrival>, a: Arrival)
    ensures var p' := p + [a];
            && Init(p') == p && Last(p') == a && Overflow(p') == !a.ok
            && Accepted(p') == Accepted(p) + (if a.ok then [a.c] else [])
            && (Dropping(p') <==> Dropping(p) && (Overflow(p) && a.ok ==> a.c == END))
  {
    var p' := p + [a];
    assert Init(p') == p;
  }

  /** The reader with a cleared buffer of `size` bytes. */
  function Start(size: nat): Reader { Reader(Zeros(size), 0, false, [], [], [], []) }

  function Zeros(n: nat): (z: seq<Byte>)
    ensures |z| == n
  {
    if n == 0 then [] else Zeros(n - 1) + [0]
  }

  lemma {:induction false} ZerosAt(n: nat, i: nat)
    requires i < n
    ensures Zeros(n)[i] == 0
  {
    if n > 1 { ZerosAt(n - 1, if i < n - 1 then i else 0); }
  }

  /** The reader after a history of its events. */
  function After(size: nat, h: seq<Event>): Reader {
    if h == [] then Start(size)
    else
      var t := After(size, Init(h));
      if Enabled(t, Last(h)) then Step(t, Last(h)) else t
  }

  predicate Legal(size: nat, h: seq<Event>) {
    h == [] || (Legal(size, Init(h)) && Enabled(After(size, Init(h)), Last(h)))
  }

  /** The bytes it took. */
  function BytesOf(h: seq<Event>): seq<Byte> {
    if h == [] then [] else BytesOf(Init(h)) + if Last(h).Take? then [Last(h).c] else []
  }

  lemma Happens(size: nat, h: seq<Event>, e: Event)
    requires Legal(size, h) && Enabled(After(size, h), e)
    ensures Legal(size, h + [e]) && After(size, h + [e]) == Step(After(size, h), e)
    ensures BytesOf(h + [e]) == BytesOf(h) + if e.Take? then [e.c] else []
  {
    assert Init(h + [e]) == h;
  }

  lemma {:induction false} HistoryReads(size: nat, h: seq<Event>)
    requires size > 0 && Legal(size, h)
    ensures After(size, h) in Readers(BytesOf(h)) && |After(size, h).buf| == size
  {
    if h == [] {
      ZerosAt(size, size - 1);
    } else {
      HistoryReads(size, Init(h));
      var t := After(size, Init(h));
      if !Last(h).Take? { assert BytesOf(h) == BytesOf(Init(h)); }
      match Last(h)
      case Take(c, free) => TakeReads(t, BytesOf(Init(h)), c, free);
      case Handle => HandleReads(t, BytesOf(Init(h)));
      case Resume => ResumeReads(t, BytesOf(Init(h)));
    }
  }

  /** Why a byte is not let through: the rest of a line is dropped, or the ring is full. */
  predicate Refused(overflow: bool, c: Byte, held: int, size: nat) {
    (overflow && c != END) || held == size - 1
  }

  // ----- the driver as an object -----

  class Driver {
    const k: nat
    const ring: R.Ring
    const buf: array<Byte>
    var overflow: bool
    var ptr: nat
    var waiting: bool
    /** What arrived, and what the consumer and the event queue did. */
    ghost var arrivals: seq<Arrival>
    ghost var events: seq<Event>

    ghost function Reader(): SerialReader.Reader
      reads this
    {
      After(Pow2(k), events)
    }

    ghost predicate Valid()
      reads this, ring, ring.data, buf
    {
      && ring.Valid() && ring.k == k && buf != ring.data
      && Dropping(arrivals) && ring.accepted == Accepted(arrivals) && overflow == Overflow(arrivals)
      && Legal(Pow2(k), events) && ring.returned == BytesOf(events)
      && buf[..] == Reader().buf && ptr == Reader().ptr && waiting == Reader().waiting
    }

    constructor (k: nat)
      ensures Valid() && this.k == k && arrivals == [] && events == []
      ensures fresh(ring) && fresh(ring.data) && fresh(buf)
    {
      this.k := k;
      ring := new R.Ring(k);
      buf := new Byte[Pow2(k)](_ => 0);
      overflow, ptr, waiting, arrivals, events := false, 0, false, [], [];
      new;
      forall i | 0 <= i < buf.Length ensures buf[i] == 0 == Zeros(Pow2(k))[i] { ZerosAt(Pow2(k), i); }
      assert buf[..] == Zeros(Pow2(k));
    }

    /** The put of serial_line_input_byte, with its overflow flag. */
    method Offer(c: Byte) returns (ok: bool)
      requires ring.Valid()
      modifies this`overflow, ring`putPtr, ring`accepted, ring.data
      ensures ring.Valid() && overflow == !ok && (ok && old(overflow) ==> c == END)
      ensures ring.accepted == if ok then old(ring.accepted) + [c] else old(ring.accepted)
      ensures !ok ==> Refused(old(overflow), c, |ring.accepted| - |ring.returned|, Pow2(ring.k))
    {
      ok := false;
      if !overflow {
        ok := ring.Put(c);
        if !ok { overflow := true; }
      } else if c == END {
        ok := ring.Put(c);
        if ok { overflow := false; }
      }
    }

    /** serial_line_input_byte: a byte is refused only while the rest of a line is dropped or
        when the ring is full. */
    method InputByte(c: Byte) returns (r: int)
      requires Valid()
      modifies this`overflow, this`arrivals, ring`putPtr, ring`accepted, ring.data
      ensures Valid() && r == if c == CR then 0 else 1
      ensures arrivals == if c == CR then old(arrivals) else old(arrivals) + [Arrival(c, !overflow)]
      ensures overflow && c != CR ==> Refused(old(overflow), c, |ring.accepted| - |ring.returned|, Pow2(ring.k))
    {
      if c == CR { return 0; }
      ghost var before := arrivals;
      var ok := Offer(c);
      Arrives(before, Arrival(c, ok));
      arrivals := before + [Arrival(c, ok)];
      r := 1;
    }

    /** One round of the loop of serial_line_process with `free` slots in the event queue;
        false when the ring is empty. */
    method Consume(free: nat) returns (progress: bool)
      requires Valid() && !waiting
      modifies this`ptr, this`waiting, this`events, buf, ring`getPtr, ring`returned
      ensures Valid() && (progress <==> old(ring.returned) != ring.accepted)
      ensures !progress ==> events == old(events)
      ensures progress ==>
                |old(ring.returned)| < |ring.accepted| && events == old(events) + [Take(ring.accepted[|old(ring.returned)|], free)]
    {
      HistoryReads(Pow2(k), events);
      var c := ring.Get();
      if c == -1 { return false; }
      Happens(Pow2(k), events, Take(c, free));
      TakeByte(c, free);
      events := events + [Take(c, free)];
      progress := true;
    }

    /** What a byte does to the buffer and the position; the two posts at a line end. */
    method TakeByte(c: Byte, free: nat)
      requires ptr < buf.Length
      modifies this`ptr, this`waiting, buf
      ensures c != END && old(ptr) < buf.Length - 1 ==>
                buf[..] == old(buf[..])[old(ptr) := c] && ptr == old(ptr) + 1 && waiting == old(waiting)
      ensures c != END && old(ptr) == buf.Length - 1 ==>
                buf[..] == old(buf[..]) && ptr == old(ptr) && waiting == old(waiting)
      ensures c == END ==>
                buf[..] == old(buf[..])[old(ptr) := 0] && waiting == (free >= 2) && ptr == if waiting then old(ptr) + 1 else 0
    {
      if c != END {
        if ptr < buf.Length - 1 {
          buf[ptr] := c;
          ptr := ptr + 1;
        }
      } else {
        buf[ptr] := 0;
        ptr := ptr + 1;
        var left := if free > 0 then free - 1 else 0;
        waiting := left > 0;
        if !waiting { ptr := 0; }
      }
    }

    /** The handlers of the oldest broadcast run: they read the string at buf. */
    method Deliver() returns (text: seq<Byte>)
      requires Valid() && Reader().queue != []
      modifies this`events
      ensures Valid() && events == old(events) + [Handle] && text == Text(buf[..])
    {
      Happens(Pow2(k), events, Handle);
      events := events + [Handle];
      text := ReadString();
    }

    method ReadString() returns (text: seq<Byte>)
      ensures text == Text(buf[..])
    {
      text := [];
      var i := 0;
      while i < buf.Length && buf[i] != 0
        invariant 0 <= i <= buf.Length && text + Text(buf[i..]) == Text(buf[..])
      {
        assert buf[i..][1..] == buf[i + 1..];
        text := text + [buf[i]];
        i := i + 1;
      }
      if i < buf.Length { assert buf[i..][0] == 0; }
    }

    /** PROCESS_EVENT_CONTINUE arrives, behind the broadcasts posted before it. */
    method Continue()
      requires Valid() && waiting && Reader().queue == []
      modifies this`ptr, this`waiting, this`events
      ensures Valid() && !waiting && events == old(events) + [Resume]
    {
      Happens(Pow2(k), events, Resume);
      events := events + [Resume];
      ptr, waiting := 0, false;
    }
  }

  /** At any point of any run of a driver, through any number of overflows. */
  lemma DriverNeverSplices(d: Driver)
    requires d.Valid()
    ensures Unspliced(LogOf(d.arrivals), d.Reader())
  {
    assert d.ring.returned <= d.ring.accepted by { assert R.Inv(d.ring.View(), d.k); }
    LogExplains(d.arrivals);
    HistoryReads(Pow2(d.k), d.events);
    NeverSpliced(LogOf(d.arrivals), d.ring.accepted, d.overflow, d.ring.returned, d.Reader());
  }

  lemma DriverMissesNothing(d: Driver)
    requires d.Valid() && d.ring.returned == d.ring.accepted && d.Reader().queue == []
    requires !LogOf(d.arrivals).lost && forall i :: 0 <= i < |d.Reader().fates| ==> d.Reader().fates[i] == Kept
    ensures AllSeen(Split(LogOf(d.arrivals).input).done, d.Reader())
  {
    LogExplains(d.arrivals);
    HistoryReads(Pow2(d.k), d.events);
    CompleteWhenNothingRefused(LogOf(d.arrivals), d.ring.accepted, d.overflow, d.Reader());
  }

  // ----- single memory accesses -----

  /** Producer and consumer around the ring, with what happened so far. */
  datatype System = System(ring: R.State, arrivals: seq<Arrival>, events: seq<Event>)

  /** One memory access of either side of the ring, or an event of the consumer. */
  datatype Move = Incoming(c: Byte) | Write | Publish | Check | Load | Advance(free: nat) | Handlers | Continue

  ghost predicate CanMove(s: System, k: nat, m: Move) {
    var t := After(Pow2(k), s.events);
    match m
    case Incoming(c) => s.ring.producer == R.PutIdle
    case Write => R.Enabled(s.ring, R.PutWrite)
    case Publish => R.Enabled(s.ring, R.PutPublish)
    case Check => R.Enabled(s.ring, R.GetCheck) && !t.waiting
    case Load => R.Enabled(s.ring, R.GetLoad)
    case Advance(free) => R.Enabled(s.ring, R.GetAdvance)
    case Handlers => t.queue != []
    case Continue => Enabled(t, Resume)
  }

  /** A byte arrives: dropped while a line is dropped, refused when the ring is full. */
  ghost function Offered(s: System, c: Byte): System
    requires s.ring.producer == R.PutIdle
  {
    if c == CR then s
    else if Overflow(s.arrivals) && c != END then s.(arrivals := s.arrivals + [Arrival(c, false)])
    else if s.ring.Elements() == s.ring.mask then s.(arrivals := s.arrivals + [Arrival(c, false)])
    else s.(ring := R.Next(s.ring, R.PutCheck(c)))
  }

  ghost function Moved(s: System, k: nat, m: Move): System
    requires CanMove(s, k, m)
  {
    match m
    case Incoming(c) => Offered(s, c)
    case Write => s.(ring := R.Next(s.ring, R.PutWrite))
    case Publish =>
      s.(ring := R.Next(s.ring, R.PutPublish), arrivals := s.arrivals + [Arrival(s.ring.producer.c, true)])
    case Check => s.(ring := R.Next(s.ring, R.GetCheck))
    case Load => s.(ring := R.Next(s.ring, R.GetLoad))
    case Advance(free) =>
      s.(ring := R.Next(s.ring, R.GetAdvance), events := s.events + [Take(s.ring.consumer.c, free)])
    case Handlers => s.(events := s.events + [Handle])
    case Continue => s.(events := s.events + [Resume])
  }

  ghost predicate Runs(s: System, k: nat, moves: seq<Move>, s': System)
    decreases |moves|
  {
    if moves == [] then s == s'
    else CanMove(s, k, moves[0]) && Runs(Moved(s, k, moves[0]), k, moves[1..], s')
  }

  ghost predicate Whole(s: System, k: nat) {
    && R.Inv(s.ring, k)
    && Dropping(s.arrivals) && s.ring.accepted == Accepted(s.arrivals)
    && (s.ring.producer != R.PutIdle && Overflow(s.arrivals) ==> s.ring.producer.c == END)
    && Legal(Pow2(k), s.events) && s.ring.returned == BytesOf(s.events)
    && (s.ring.consumer != R.GetIdle ==> !After(Pow2(k), s.events).waiting)
  }

  lemma ProducerMoves(s: System, k: nat, m: Move)
    requires Whole(s, k) && CanMove(s, k, m) && (m.Incoming? || m.Write? || m.Publish?)
    ensures Whole(Moved(s, k, m), k)
  {
    match m
    case Incoming(c) =>
      Arrives(s.arrivals, Arrival(c, false));
      R.StepInv(s.ring, R.PutCheck(c), k);
    case Write => R.StepInv(s.ring, R.PutWrite, k);
    case Publish =>
      Arrives(s.arrivals, Arrival(s.ring.producer.c, true));
      R.StepInv(s.ring, R.PutPublish, k);
  }

  lemma ConsumerMoves(s: System, k: nat, m: Move)
    requires Whole(s, k) && CanMove(s, k, m) && !(m.Incoming? || m.Write? || m.Publish?)
    ensures Whole(Moved(s, k, m), k)
  {
    HistoryReads(Pow2(k), s.events);
    match m
    case Check => R.StepInv(s.ring, R.GetCheck, k);
    case Load => R.StepInv(s.ring, R.GetLoad, k);
    case Advance(free) =>
      R.StepInv(s.ring, R.GetAdvance, k);
      Happens(Pow2(k), s.events, Take(s.ring.consumer.c, free));
    case Handlers => Happens(Pow2(k), s.events, Handle);
    case Continue => Happens(Pow2(k), s.events, Resume);
  }

  lemma {:induction false} RunsWhole(s: System, k: nat, moves: seq<Move>, s': System)
    requires Whole(s, k) && Runs(s, k, moves, s')
    ensures Whole(s', k)
    decreases |moves|
  {
    if moves != [] {
      var m := moves[0];
      if m.Incoming? || m.Write? || m.Publish? { ProducerMoves(s, k, m); } else { ConsumerMoves(s, k, m); }
      RunsWhole(Moved(s, k, m), k, moves[1..], s');
    }
  }

  /** In every interleaving of the single memory accesses of interrupt and consumer with the
      events of the system, whatever the event queue accepts: lines seen by handlers that
      the consumer waited for are never spliced. */
  lemma InterleavingNeverSplices(ring: R.State, k: nat, moves: seq<Move>, s: System)
    requires R.Initial(ring, k) && Runs(System(ring, [], []), k, moves, s)
    ensures Legal(Pow2(k), s.events) && Unspliced(LogOf(s.arrivals), After(Pow2(k), s.events))
  {
    StartsWhole(ring, k);
    RunsWhole(System(ring, [], []), k, moves, s);
    LogExplains(s.arrivals);
    HistoryReads(Pow2(k), s.events);
    NeverSpliced(LogOf(s.arrivals), s.ring.accepted, Overflow(s.arrivals), s.ring.returned, After(Pow2(k), s.events));
  }

  lemma StartsWhole(ring: R.State, k: nat)
    requires R.Initial(ring, k)
    ensures Whole(System(ring, [], []), k)
  {
    ModSmall(0, Pow2(k));
  }
}
