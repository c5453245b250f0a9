/** Whole runs of the receiver of contiki-ng/os/dev/slip.c, in its cyclic buffer of a given
    size and with a given limit on what a poll may return. */
module SlipReceiver {
  import opened Bits
  import opened SlipCodec
  import opened SlipQueue
  import opened Slip

  /** rxbuf_init over any memory. */
  function Empty(buf: seq<Byte>): Regs { Regs(buf, 0, 0, 0, Ok) }

  lemma EmptyReps(buf: seq<Byte>)
    requires buf != []
    ensures Empty(buf) in Representations(Queue([], []))
  {
    PendingNothing();
    assert Reps(Empty(buf), Queue([], []));
  }

  datatype RxTrace = RxTrace(v: Regs, out: seq<seq<Byte>>)

  /** Bytes and polls, as the registers take them. */
  ghost function RxPlay(v: Regs, blen: nat, events: seq<Event>): RxTrace {
    if events == [] then RxTrace(v, [])
    else
      var t := RxPlay(v, blen, events[..|events| - 1]);
      if !InRange(t.v) then t
      else
        match events[|events| - 1]
        case Arrive(c) => RxTrace(RxByte(t.v, c), t.out)
        case Poll => RxTrace(RxPoll(t.v), if t.v.begin != t.v.pkt then t.out + [RxOut(t.v, blen)] else t.out)
  }

  /** The buffer has room whenever a byte arrives. */
  ghost predicate NeverFull(v: Regs, blen: nat, events: seq<Event>) {
    events == [] ||
    (&& NeverFull(v, blen, events[..|events| - 1])
     && (events[|events| - 1].Arrive? ==> !Full(RxPlay(v, blen, events[..|events| - 1]).v)))
  }

  /** With room, the registers are full exactly when the queue leaves one free cell. */
  lemma FullExactly(v: Regs, q: Queue)
    requires v in Representations(q)
    ensures Full(v) <==> |Bytes(q)| + 1 >= |v.buf|
  {}

  /** The packets of a stream: none empty, none longer than blen. */
  ghost predicate Fitting(packets: seq<(bool, seq<Byte>)>, blen: nat) {
    forall i :: 0 <= i < |packets| ==> packets[i].1 != [] && |packets[i].1| <= blen
  }

  /** The cyclic buffer does what the queue does. */
  lemma {:induction false} PlayRefines(buf: seq<Byte>, blen: nat, events: seq<Event>, packets: seq<(bool, seq<Byte>)>)
    requires buf != [] && Fitting(packets, blen) && Play(events).heard <= Stream(packets)
    requires Disciplined(events) && NeverFull(Empty(buf), blen, events)
    ensures RxPlay(Empty(buf), blen, events).v in Representations(Play(events).q)
    ensures RxPlay(Empty(buf), blen, events).out == Play(events).out
    decreases |events|
  {
    if events == [] {
      EmptyReps(buf);
    } else {
      var before := events[..|events| - 1];
      var t, q := RxPlay(Empty(buf), blen, before), Play(before);
      assert q.heard <= Play(events).heard;
      PlayRefines(buf, blen, before, packets);
      match events[|events| - 1]
      case Arrive(c) => ArriveRefines(t.v, before, packets, c);
      case Poll => PollRefines(t.v, before, packets, blen);
    }
  }

  lemma ArriveRefines(v: Regs, before: seq<Event>, packets: seq<(bool, seq<Byte>)>, c: Byte)
    requires v in Representations(Play(before).q) && !Full(v) && Disciplined(before)
    requires Play(before).heard + [c] <= Stream(packets) && forall i :: 0 <= i < |packets| ==> packets[i].1 != []
    ensures InRange(v) && RxByte(v, c) in Representations(Input(Play(before).q, c))
  {
    var heard := Play(before).heard;
    FullExactly(v, Play(before).q);
    StreamWell(packets);
    WellPrefix(heard + [c], Stream(packets));
    assert (heard + [c])[..|heard|] == heard;
    PlayAccounted(before);
    RxByteReps(v, Play(before).q, c);
  }

  lemma PollRefines(v: Regs, before: seq<Event>, packets: seq<(bool, seq<Byte>)>, blen: nat)
    requires v in Representations(Play(before).q) && Disciplined(before)
    requires Play(before).heard <= Stream(packets) && Fitting(packets, blen)
    ensures InRange(v) && RxPoll(v) in Representations(PollRest(Play(before).q))
    ensures v.begin != v.pkt <==> Ready(Play(before).q)
    ensures Ready(Play(before).q) ==> RxOut(v, blen) == PollOut(Play(before).q)
  {
    var q := Play(before).q;
    ReadyExactly(v, q);
    RxPollReps(v, q);
    if Ready(q) {
      var i := NextIsPacket(before, packets);
      RxOutExactly(v, q, blen);
    }
  }

  /** For a buffer of any size, any stream of packets that fit blen, with or without leading
      END, and any interleaving of its bytes with polls that never finds the buffer full and
      lets a leading END arrive only while no frame waits: the polls return the packets in
      order and unchanged, also around the end of the buffer, and when no frame is left to
      see, they have returned all of them. */
  lemma PollsReturnPackets(buf: seq<Byte>, blen: nat, events: seq<Event>, packets: seq<(bool, seq<Byte>)>)
    requires buf != [] && Fitting(packets, blen) && Play(events).heard == Stream(packets)
    requires Disciplined(events) && NeverFull(Empty(buf), blen, events)
    ensures var t := RxPlay(Empty(buf), blen, events);
            t.out <= Packets(packets) && (t.v.begin == t.v.pkt ==> t.out == Packets(packets))
  {
    PlayRefines(buf, blen, events, packets);
    SlipQueue.PollsReturnPackets(events, packets);
    PlayAccounted(events);
    var q := Play(events).q;
    ReadyExactly(RxPlay(Empty(buf), blen, events).v, q);
    if q.frames == [] { assert DecodeAll(q.frames) == []; }
  }

  // ----- one packet with a leading END -----

  ghost function RxAll(v: Regs, bytes: seq<Byte>): Regs {
    if bytes == [] then v
    else
      var u := RxAll(v, bytes[..|bytes| - 1]);
      if InRange(u) then RxByte(u, bytes[|bytes| - 1]) else u
  }

  lemma {:induction false} RxAllAppend(v: Regs, a: seq<Byte>, b: seq<Byte>)
    ensures RxAll(v, a + b) == RxAll(RxAll(v, a), b)
    decreases |b|
  {
    if b == [] {
      assert a + b == a;
    } else {
      var u, c := b[..|b| - 1], b[|b| - 1];
      RxAllAppend(v, a, u);
      var ab := a + b;
      assert ab[..|ab| - 1] == a + u && ab[|ab| - 1] == c;
    }
  }

  lemma RxAllOne(v: Regs, c: Byte)
    ensures RxAll(v, [c]) == if InRange(v) then RxByte(v, c) else v
  {
    var one := [c];
    assert one[..0] == [];
  }

  ghost function RxPolls(v: Regs, n: nat): Regs {
    if n == 0 then v
    else
      var u := RxPolls(v, n - 1);
      if InRange(u) then RxPoll(u) else u
  }

  lemma {:induction false} RxPollsRep(v: Regs, q: Queue, n: nat)
    requires v in Representations(q)
    ensures RxPolls(v, n) in Representations(PollTimes(q, n))
  {
    if n > 0 {
      RxPollsRep(v, q, n - 1);
      RxPollReps(RxPolls(v, n - 1), PollTimes(q, n - 1));
    }
  }

  /** No frame can be seen, and the rest of the line is dropped. */
  ghost predicate Dropping(v: Regs) { InRange(v) && v.begin == v.pkt && v.mode == Rubbish }

  lemma {:induction false} DroppingStays(v: Regs, raw: seq<Byte>)
    requires Dropping(v) && END !in raw
    ensures Dropping(RxAll(v, raw))
  {
    if raw != [] { DroppingStays(v, raw[..|raw| - 1]); }
  }

  lemma {:induction false} NoEndFrames(raw: seq<Byte>)
    requires END !in raw
    ensures Frames(raw) == Queue([], raw)
  {
    if raw != [] {
      NoEndFrames(raw[..|raw| - 1]);
      assert raw[..|raw| - 1] + [raw[|raw| - 1]] == raw;
    }
  }

  /** The last byte of well-escaped bytes without END, for the frame they are in. */
  lemma LastFits(raw: seq<Byte>)
    requires raw != [] && END !in raw && WellEscaped(raw)
    ensures var u, c := raw[..|raw| - 1], raw[|raw| - 1];
            END !in u && WellEscaped(u) && c != END && (Pending(u) ==> IsCode(c)) && u + [c] == raw
  {
    NoEndFrames(raw[..|raw| - 1]);
  }

  /** Bytes of one frame, while there is room for them. */
  lemma {:induction false} FrameFits(v: Regs, q: Queue, raw: seq<Byte>)
    requires v in Representations(q) && q.part == [] && END !in raw && WellEscaped(raw)
    requires |Bytes(q)| + |raw| < |v.buf|
    ensures RxAll(v, raw) in Representations(Queue(q.frames, raw)) && |RxAll(v, raw).buf| == |v.buf|
  {
    if raw != [] {
      var u, c := raw[..|raw| - 1], raw[|raw| - 1];
      LastFits(raw);
      FrameFits(v, q, u);
      assert |Bytes(Queue(q.frames, u))| == |Bytes(q)| + |u|;
      RxByteReps(RxAll(v, u), Queue(q.frames, u), c);
    }
  }

  /** A byte for which there is no room, with no frame waiting. */
  lemma NoRoom(v: Regs, part: seq<Byte>, c: Byte)
    requires v in Representations(Queue([], part)) && |part| + 1 >= |v.buf| && (Pending(part) ==> IsCode(c))
    ensures InRange(v) && Dropping(RxByte(v, c)) && |RxByte(v, c).buf| == |v.buf|
  {
    FullExactly(v, Queue([], part));
  }

  /** Too many bytes for an empty buffer. */
  lemma {:induction false} FrameOverflows(v: Regs, raw: seq<Byte>)
    requires v in Representations(Queue([], [])) && END !in raw && WellEscaped(raw) && |raw| >= |v.buf|
    ensures Dropping(RxAll(v, raw))
  {
    var u, c := raw[..|raw| - 1], raw[|raw| - 1];
    LastFits(raw);
    if |u| >= |v.buf| {
      FrameOverflows(v, u);
    } else {
      FrameFits(v, Queue([], []), u);
      NoRoom(RxAll(v, u), u, c);
    }
  }

  /** The leading END at a receiver with nothing in its buffer. */
  lemma LeadAtIdle(v: Regs)
    requires v in Representations(Queue([], []))
    ensures InRange(v)
    ensures |v.buf| >= 2 ==> RxByte(v, END) in Representations(Queue([], [])) && |RxByte(v, END).buf| == |v.buf|
    ensures |v.buf| == 1 ==> Dropping(RxByte(v, END))
  {
    PendingNothing();
    if |v.buf| >= 2 { RxByteReps(v, Queue([], []), END); } else { NoRoom(v, [], END); }
  }

  /** Nothing can be seen after a packet that does not fit. */
  lemma IdleOverflows(v: Regs, p: seq<Byte>)
    requires v in Representations(Queue([], [])) && p != [] && |Escape(p)| + 1 >= |v.buf|
    ensures var u := RxAll(v, [END] + Escape(p) + [END]); InRange(u) && u.begin == u.pkt
  {
    var raw := Escape(p);
    EscapeHasNoEnd(p);
    EscapeAlone(p);
    LeadAtIdle(v);
    WriteSteps(v, raw);
    var v1 := RxByte(v, END);
    if |v.buf| == 1 {
      DroppingStays(v1, raw);
    } else if |raw| >= |v.buf| {
      FrameOverflows(v1, raw);
    } else {
      FrameFits(v1, Queue([], []), raw);
      EscapeComplete(p);
      NoRoom(RxAll(v1, raw), raw, END);
    }
  }

  lemma EscapeAlone(p: seq<Byte>)
    ensures WellEscaped(Escape(p))
  {
    EscapeWell([], p);
    assert [] + Escape(p) == Escape(p);
  }

  lemma WriteSteps(v: Regs, raw: seq<Byte>)
    requires InRange(v)
    ensures var w := RxAll(RxByte(v, END), raw);
            RxAll(v, [END] + raw + [END]) == if InRange(w) then RxByte(w, END) else w
  {
    RxAllAppend(v, [END] + raw, [END]);
    RxAllAppend(v, [END], raw);
    RxAllOne(v, END);
    RxAllOne(RxAll(RxByte(v, END), raw), END);
  }

  lemma IdleFits(v: Regs, p: seq<Byte>)
    requires v in Representations(Queue([], [])) && p != [] && |Escape(p)| + 1 < |v.buf|
    ensures RxAll(v, [END] + Escape(p) + [END]) in Representations(Queue([Escape(p)], []))
  {
    var raw := Escape(p);
    EscapeHasNoEnd(p);
    LeadAtIdle(v);
    FrameThenEnd(RxByte(v, END), Queue([], []), p);
    WriteSteps(v, raw);
    assert [] + [raw] == [raw];
  }

  /** The leading END behind waiting frames. */
  lemma LeadBehind(v: Regs, q: Queue)
    requires v in Representations(q) && Clean(q) && q.part == [] && q.frames != [] && |Bytes(q)| + 1 < |v.buf|
    ensures InRange(v) && Input(q, END) == Queue(q.frames + [[]], []) && |Bytes(Input(q, END))| == |Bytes(q)| + 1
    ensures RxByte(v, END) in Representations(Input(q, END)) && |RxByte(v, END).buf| == |v.buf|
  {
    PendingNothing();
    RxByteReps(v, q, END);
    FlatAppend(q.frames, []);
  }

  lemma FrameThenEnd(v: Regs, q: Queue, p: seq<Byte>)
    requires v in Representations(q) && q.part == [] && |Bytes(q)| + |Escape(p)| + 1 < |v.buf|
    ensures var w := RxAll(v, Escape(p));
            InRange(w) && RxByte(w, END) in Representations(Input(Queue(q.frames, Escape(p)), END))
  {
    EscapeHasNoEnd(p);
    EscapeAlone(p);
    EscapeComplete(p);
    FrameFits(v, q, Escape(p));
    assert |Bytes(Queue(q.frames, Escape(p)))| == |Bytes(q)| + |Escape(p)|;
    RxByteReps(RxAll(v, Escape(p)), Queue(q.frames, Escape(p)), END);
  }

  lemma WaitingFits(v: Regs, q: Queue, p: seq<Byte>)
    requires v in Representations(q) && Clean(q) && q.part == [] && q.frames != []
    requires |Bytes(q)| + |Escape(p)| + 2 < |v.buf|
    ensures RxAll(v, [END] + Escape(p) + [END]) in Representations(FeedAll(q, [END] + Escape(p) + [END]))
  {
    var raw := Escape(p);
    EscapeHasNoEnd(p);
    LeadBehind(v, q);
    FrameThenEnd(RxByte(v, END), Input(q, END), p);
    WriteSteps(v, raw);
    WriteFeeds(q, raw);
    assert [] + raw == raw;
  }

  // ----- after a fault -----

  /** Nothing is in the buffer and the rest of the line is dropped. */
  ghost predicate Emptied(v: Regs) { Dropping(v) && v.next == v.begin }

  lemma {:induction false} EmptiedStays(v: Regs, raw: seq<Byte>)
    requires Emptied(v) && END !in raw
    ensures Emptied(RxAll(v, raw)) && RxAll(v, raw) == v
  {
    if raw != [] { EmptiedStays(v, raw[..|raw| - 1]); }
  }

  lemma BadByteEmpties(v: Regs, part: seq<Byte>, bad: Byte)
    requires v in Representations(Queue([], part)) && (|part| + 1 >= |v.buf| || (Pending(part) && !IsCode(bad)))
    ensures InRange(v) && Emptied(RxByte(v, bad))
  {
    if |part| + 1 >= |v.buf| && (Pending(part) ==> IsCode(bad)) { FullExactly(v, Queue([], part)); }
  }

  lemma EndRecovers(w: Regs)
    requires Emptied(w)
    ensures InRange(w) && RxByte(w, END) in Representations(Queue([], []))
  {
    PendingNothing();
    assert Window(w.buf, w.begin, 0) == [];
  }

  /** A byte that cannot be taken with no frame waiting: there is no room, or it is no code
      behind an ESC.  The frame in progress is dropped, and so is all up to the next END;
      from there on the receiver is as if nothing had been sent. */
  lemma FaultDropsOneFrame(v: Regs, part: seq<Byte>, bad: Byte, junk: seq<Byte>)
    requires v in Representations(Queue([], part)) && END !in junk
    requires |part| + 1 >= |v.buf| || (Pending(part) && !IsCode(bad))
    ensures RxAll(v, [bad] + junk + [END]) in Representations(Queue([], []))
  {
    BadByteEmpties(v, part, bad);
    EmptiedStays(RxByte(v, bad), junk);
    RxAllAppend(v, [bad] + junk, [END]);
    RxAllAppend(v, [bad], junk);
    RxAllOne(v, bad);
    RxAllOne(RxByte(v, bad), END);
    EndRecovers(RxByte(v, bad));
  }

  /** So the packet after a fault arrives. */
  lemma NextPacketArrives(v: Regs, part: seq<Byte>, bad: Byte, junk: seq<Byte>, p: seq<Byte>)
    requires v in Representations(Queue([], part)) && END !in junk && p != []
    requires |part| + 1 >= |v.buf| || (Pending(part) && !IsCode(bad))
    requires |Escape(p)| + 1 < |RxAll(v, [bad] + junk + [END]).buf|
    ensures RxAll(v, [bad] + junk + [END] + ([END] + Escape(p) + [END])) in Representations(Queue([Escape(p)], []))
  {
    FaultDropsOneFrame(v, part, bad, junk);
    RxAllAppend(v, [bad] + junk + [END], [END] + Escape(p) + [END]);
    IdleFits(RxAll(v, [bad] + junk + [END]), p);
  }

  /** A packet written with slip_write to a receiver that is between two packets, in a buffer
      of any size, and the polls that follow.  Unless the buffer overflows behind a waiting
      frame, the poll after those of the waiting frames returns the packet within blen bytes
      of its output buffer if and only if no frame was waiting, the escaped packet and its
      END leave a cell of the buffer free, and the packet is at most blen bytes long. */
  lemma DeliveredExactly(v: Regs, q: Queue, p: seq<Byte>, blen: nat)
    requires v in Representations(q) && Clean(q) && q.part == [] && p != []
    requires q.frames != [] ==> |Bytes(q)| + |Escape(p)| + 2 < |v.buf|
    ensures var u := RxPolls(RxAll(v, [END] + Escape(p) + [END]), |q.frames|);
            && InRange(u)
            && (RxOut(u, blen) == p && RxReach(u, blen) <= blen <==>
                q.frames == [] && |Escape(p)| + 1 < |v.buf| && |p| <= blen)
  {
    var bytes := [END] + Escape(p) + [END];
    var u := RxAll(v, bytes);
    if q.frames != [] {
      WaitingFits(v, q, p);
      EscapeHasNoEnd(p);
      WriteToWaiting(q, Escape(p));
      RxPollsRep(u, FeedAll(q, bytes), |q.frames|);
      RxOutExactly(RxPolls(u, |q.frames|), PollTimes(FeedAll(q, bytes), |q.frames|), blen);
    } else if |Escape(p)| + 1 >= |v.buf| {
      assert q == Queue([], []);
      IdleOverflows(v, p);
    } else {
      assert q == Queue([], []);
      IdleFits(v, p);
      RxOutExactly(u, Queue([Escape(p)], []), blen);
      RoundTrip(p, []);
      assert [] + p == p;
      EscapeHasNoEnd(p);
    }
  }

  /** A packet one byte too long that lies in one piece is still returned whole, with its
      last byte behind the blen bytes of the output buffer. */
  lemma OneTooMany(v: Regs, q: Queue, p: seq<Byte>, blen: nat)
    requires v in Representations(q) && Ready(q) && q.frames[0] == Escape(p) && |p| == blen + 1 && v.begin < v.pkt
    ensures InRange(v) && RxOut(v, blen) == p && RxReach(v, blen) == blen + 1
  {
    FirstInMemory(v, q);
    LastEmits(p, blen);
  }

  lemma LastEmits(p: seq<Byte>, blen: nat)
    requires |p| == blen + 1
    ensures Scan(START, Escape(p), blen).out == p && ScanReach(START, Escape(p), blen) == blen + 1
  {
    var u, c := p[..|p| - 1], p[|p| - 1];
    var e := EscapeByte(c);
    RoundTrip(u, []);
    RoundTrip(p, []);
    assert [] + u == u && [] + p == p;
    ReachBound(START, Escape(p), blen);
    if |e| == 2 {
      var raw := Escape(u) + [ESC];
      DecodeAppend(START, Escape(u), [ESC]);
      DecodeOne(Decode(START, Escape(u)), ESC);
      assert raw + [e[1]] == Escape(p);
      ScanLast(START, raw, e[1], blen);
    } else {
      ScanLast(START, Escape(u), c, blen);
    }
  }
}
