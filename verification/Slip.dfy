/** The receiver of contiki-ng/os/dev/slip.c: a cyclic buffer whose used space starts at
    `begin` and ends before `nextFree`; `pktEnd` is the END of the first frame, or equal
    to `begin` when no frame is seen. */
module Slip {
  import opened Bits
  import opened SlipCodec
  import opened SlipQueue

  datatype Mode = TwoPackets | Ok | Esc | Rubbish

  datatype Regs = Regs(buf: seq<Byte>, begin: int, next: int, pkt: int, mode: Mode)

  function Wrap(size: int, x: int): int {
    if x >= size then x - size else x
  }

  ghost predicate InRange(r: Regs) {
    0 <= r.begin < |r.buf| && 0 <= r.next < |r.buf| && 0 <= r.pkt < |r.buf|
  }

  /** Cell j counted from `begin`, around the end of the buffer if need be. */
  ghost function CellAt(buf: seq<Byte>, begin: int, j: int): Byte
    requires 0 <= begin < |buf| && 0 <= j < |buf|
  {
    buf[Wrap(|buf|, begin + j)]
  }

  /** The n cells from `begin` on. */
  ghost function Window(buf: seq<Byte>, begin: int, n: nat): (w: seq<Byte>)
    requires 0 <= begin < |buf| && n <= |buf|
    ensures |w| == n
  {
    if begin + n <= |buf| then buf[begin..begin + n] else buf[begin..] + buf[..begin + n - |buf|]
  }

  lemma WindowAt(buf: seq<Byte>, begin: int, n: nat, j: nat)
    requires 0 <= begin < |buf| && j < n <= |buf|
    ensures Window(buf, begin, n)[j] == CellAt(buf, begin, j)
  {}

  /** The cells from `begin` on hold `bytes`. */
  ghost predicate Stored(buf: seq<Byte>, begin: int, bytes: seq<Byte>) {
    0 <= begin < |buf| && |bytes| < |buf| && Window(buf, begin, |bytes|) == bytes
  }

  function First(q: Queue): nat { if q.frames == [] then 0 else |q.frames[0]| }

  /** Only the first frame can hold an END, and only after a stray one was stored. */
  ghost predicate TailClean(q: Queue) {
    END !in q.part && (q.frames != [] ==> EndFree(q.frames[1..]))
  }

  ghost predicate EndFree(frames: seq<seq<Byte>>) {
    forall i :: 0 <= i < |frames| ==> END !in frames[i]
  }

  /** The registers that represent a queue. */
  ghost predicate Reps(r: Regs, q: Queue) {
    && InRange(r) && Stored(r.buf, r.begin, Bytes(q))
    && r.next == Wrap(|r.buf|, r.begin + |Bytes(q)|)
    && r.pkt == Wrap(|r.buf|, r.begin + First(q))
    && r.mode == (if Pending(q.part) then Esc else Ok)
    && TailClean(q)
  }

  ghost function Representations(q: Queue): iset<Regs> {
    iset r: Regs | Reps(r, q)
  }

  lemma StoredAppend(buf: seq<Byte>, begin: int, bytes: seq<Byte>, c: Byte)
    requires Stored(buf, begin, bytes) && |bytes| + 1 < |buf|
    ensures Stored(buf[Wrap(|buf|, begin + |bytes|) := c], begin, bytes + [c])
  {
    var buf', n := buf[Wrap(|buf|, begin + |bytes|) := c], |bytes|;
    forall j | 0 <= j < n + 1 ensures Window(buf', begin, n + 1)[j] == (bytes + [c])[j] {
      WindowAt(buf', begin, n + 1, j);
      if j < n { WindowAt(buf, begin, n, j); }
    }
  }

  lemma StoredDrop(buf: seq<Byte>, begin: int, bytes: seq<Byte>, k: nat, rest: seq<Byte>)
    requires Stored(buf, begin, bytes) && k <= |bytes| && rest == bytes[k..]
    ensures Stored(buf, Wrap(|buf|, begin + k), rest)
  {
    var start, n := Wrap(|buf|, begin + k), |rest|;
    forall j | 0 <= j < n ensures Window(buf, start, n)[j] == rest[j] {
      WindowAt(buf, start, n, j);
      WindowAt(buf, begin, |bytes|, k + j);
    }
  }

  lemma FirstWithin(q: Queue)
    ensures First(q) <= |Bytes(q)| && (q.frames != [] ==> First(q) < |Bytes(q)|)
    ensures q.frames != [] ==> Bytes(q)[..First(q)] == q.frames[0]
    ensures q.frames != [] ==> Bytes(q)[First(q) + 1..] == Bytes(Queue(q.frames[1..], q.part))
  {
    if q.frames != [] {
      var f := q.frames[0];
      assert Bytes(q) == f + [END] + Bytes(Queue(q.frames[1..], q.part));
    }
  }

  /** add_char stores c; the queue it stands for has one byte more. */
  function Added(r: Regs, c: Byte): Regs
    requires 0 <= r.next < |r.buf|
  {
    r.(buf := r.buf[r.next := c], next := if r.next + 1 == |r.buf| then 0 else r.next + 1)
  }

  lemma AddedStored(r: Regs, q: Queue, c: Byte, q': Queue)
    requires Reps(r, q) && |Bytes(q)| + 1 < |r.buf| && Bytes(q') == Bytes(q) + [c]
    ensures Stored(Added(r, c).buf, r.begin, Bytes(q'))
    ensures Added(r, c).next == Wrap(|r.buf|, r.begin + |Bytes(q')|)
    ensures Added(r, c).next != r.begin
  {
    StoredAppend(r.buf, r.begin, Bytes(q), c);
  }

  /** A byte other than END joins the frame in progress. */
  lemma PlainReps(r: Regs, q: Queue, c: Byte, mode: Mode)
    requires Reps(r, q) && |Bytes(q)| + 1 < |r.buf| && c != END
    requires mode == if !Pending(q.part) && c == ESC then Esc else Ok
    ensures Reps(Added(r, c).(mode := mode), Input(q, c))
  {
    var q' := Input(q, c);
    assert Bytes(q') == Bytes(q) + [c];
    AddedStored(r, q, c, q');
    PendingAppend(q.part, c);
  }

  /** An END closes a frame: behind the frames that wait, or as the frame to read when the
      reader sees none. */
  lemma EndReps(r: Regs, q: Queue)
    requires Reps(r, q) && |Bytes(q)| + 1 < |r.buf| && !Pending(q.part) && Bytes(q) != []
    ensures r.next != r.pkt
    ensures Reps(Added(r, END).(pkt := if r.begin == r.pkt then r.next else r.pkt), Input(q, END))
  {
    var q' := Input(q, END);
    FirstWithin(q);
    assert Bytes(q') == Bytes(q) + [END] by { EndBytes(q); }
    AddedStored(r, q, END, q');
    assert r.begin == r.pkt <==> First(q) == 0;
  }

  lemma EndBytes(q: Queue)
    requires Bytes(q) != []
    ensures Bytes(Input(q, END)) == Bytes(q) + [END]
  {
    if q.frames == [] || q.frames[0] == [] {
      var all := Bytes(q);
      if q.frames == [] { assert all == q.part && q.frames + [q.part] == [all]; }
      var one := [all];
      assert one[1..] == [] && Flat(one) == all + [END];
    } else {
      FlatAppend(q.frames, q.part);
    }
  }

  /** An END with nothing before it and no frame waiting leaves the pointers alone. */
  lemma EmptyEndReps(r: Regs, q: Queue)
    requires Reps(r, q) && Bytes(q) == []
    ensures r.next == r.pkt && Input(q, END) == q
    ensures Reps(r.(buf := r.buf[r.next := END]), q)
  {
    FirstWithin(q);
    assert q.frames == [] && q.part == [];
  }

  // ----- polling -----

  /** The first frame as it lies in memory, in one piece or around the end. */
  lemma FirstInMemory(r: Regs, q: Queue)
    requires Reps(r, q) && Ready(q)
    ensures r.begin != r.pkt
    ensures r.begin < r.pkt ==> r.buf[r.begin..r.pkt] == q.frames[0]
    ensures r.begin > r.pkt ==> r.buf[r.begin..] + r.buf[..r.pkt] == q.frames[0]
  {
    FirstWithin(q);
    var f := q.frames[0];
    forall j | 0 <= j < |f| ensures CellAt(r.buf, r.begin, j) == f[j] {
      WindowAt(r.buf, r.begin, |Bytes(q)|, j);
      assert Bytes(q)[..|f|][j] == Bytes(q)[j];
    }
    FirstWindow(r.buf, r.begin, r.pkt, f);
  }

  lemma FirstWindow(buf: seq<Byte>, begin: int, pkt: int, f: seq<Byte>)
    requires 0 <= begin < |buf| && 0 <= |f| < |buf| && pkt == Wrap(|buf|, begin + |f|)
    requires forall j :: 0 <= j < |f| ==> CellAt(buf, begin, j) == f[j]
    ensures begin < pkt ==> buf[begin..pkt] == f
    ensures begin > pkt ==> buf[begin..] + buf[..pkt] == f
  {
    forall j | 0 <= j < |f| ensures Window(buf, begin, |f|)[j] == f[j] { WindowAt(buf, begin, |f|, j); }
    assert Window(buf, begin, |f|) == f;
    if begin > pkt && begin + |f| == |buf| { assert buf[..pkt] == []; }
  }

  function Distance(size: int, a: int, b: int): int {
    if b >= a then b - a else b - a + size
  }

  /** The cell after the first frame, and the first END from there on. */
  ghost predicate FirstEnd(buf: seq<Byte>, start: int, stop: int, k: int) {
    && 0 <= start < |buf| && 0 <= stop < |buf|
    && 0 <= k <= Distance(|buf|, start, stop)
    && (forall j :: 0 <= j < k ==> CellAt(buf, start, j) != END)
    && (k < Distance(|buf|, start, stop) ==> CellAt(buf, start, k) == END)
  }

  /** The registers after the first frame was removed and the next END found k cells on. */
  ghost function Removed(r: Regs, k: int): Regs {
    var start := Wrap(|r.buf|, r.pkt + 1);
    r.(begin := start,
       pkt := if k < Distance(|r.buf|, start, r.next) then Wrap(|r.buf|, start + k) else start)
  }

  /** Where the pointers go, counted from the old start. */
  lemma Geometry(size: int, begin: int, first: int, total: int)
    requires 0 <= begin < size && 0 <= first < total < size
    ensures var start := Wrap(size, Wrap(size, begin + first) + 1);
            && start == Wrap(size, begin + (first + 1)) && 0 <= start < size
            && Distance(size, start, Wrap(size, begin + total)) == total - first - 1
            && Wrap(size, begin + total) == Wrap(size, start + (total - first - 1))
  {}

  /** What lies after the first frame. */
  lemma AfterFirst(r: Regs, q: Queue, start: int, b: seq<Byte>)
    requires Reps(r, q) && Ready(q) && start == Wrap(|r.buf|, r.pkt + 1) && b == Bytes(PollRest(q))
    ensures Stored(r.buf, start, b)
    ensures Distance(|r.buf|, start, r.next) == |b| && r.next == Wrap(|r.buf|, start + |b|)
  {
    FirstWithin(q);
    AfterByte(r.buf, r.begin, Bytes(q), First(q), b, r.pkt, start, r.next);
  }

  lemma AfterByte(buf: seq<Byte>, begin: int, bytes: seq<Byte>, first: nat, rest: seq<Byte>, pkt: int, start: int, next: int)
    requires Stored(buf, begin, bytes) && first < |bytes| && rest == bytes[first + 1..]
    requires pkt == Wrap(|buf|, begin + first) && start == Wrap(|buf|, pkt + 1) && next == Wrap(|buf|, begin + |bytes|)
    ensures Stored(buf, start, rest)
    ensures Distance(|buf|, start, next) == |rest| && next == Wrap(|buf|, start + |rest|)
  {
    Geometry(|buf|, begin, first, |bytes|);
    StoredDrop(buf, begin, bytes, first + 1, rest);
  }

  lemma PollReps(r: Regs, q: Queue, k: int)
    requires r in Representations(q) && Ready(q)
    requires FirstEnd(r.buf, Wrap(|r.buf|, r.pkt + 1), r.next, k)
    ensures Removed(r, k) in Representations(PollRest(q))
  {
    PollRepsAt(r, q, k, Wrap(|r.buf|, r.pkt + 1), PollRest(q));
  }

  lemma PollRepsAt(r: Regs, q: Queue, k: int, start: int, rest: Queue)
    requires r in Representations(q) && Ready(q) && start == Wrap(|r.buf|, r.pkt + 1) && rest == PollRest(q)
    requires FirstEnd(r.buf, start, r.next, k)
    ensures Removed(r, k) in Representations(rest)
  {
    RestFacts(r, q, start, rest, Bytes(rest));
    RestReps(r, rest, Bytes(rest), start, k);
  }

  lemma RestFacts(r: Regs, q: Queue, start: int, rest: Queue, b: seq<Byte>)
    requires Reps(r, q) && Ready(q) && start == Wrap(|r.buf|, r.pkt + 1) && rest == PollRest(q) && b == Bytes(rest)
    ensures Stored(r.buf, start, b)
    ensures Distance(|r.buf|, start, r.next) == |b| && r.next == Wrap(|r.buf|, start + |b|)
    ensures r.mode == (if Pending(rest.part) then Esc else Ok) && END !in rest.part && EndFree(rest.frames)
  {
    AfterFirst(r, q, start, b);
  }

  lemma RestReps(r: Regs, q: Queue, b: seq<Byte>, start: int, k: int)
    requires b == Bytes(q) && Stored(r.buf, start, b) && FirstEnd(r.buf, start, r.next, k)
    requires Distance(|r.buf|, start, r.next) == |b| && r.next == Wrap(|r.buf|, start + |b|)
    requires r.mode == (if Pending(q.part) then Esc else Ok)
    requires END !in q.part && EndFree(q.frames)
    requires start == Wrap(|r.buf|, r.pkt + 1)
    ensures Removed(r, k) in Representations(q)
  {
    FirstWithin(q);
    EndPosition(q, b, r.buf, start, r.next, k);
  }

  lemma EndPosition(q: Queue, b: seq<Byte>, buf: seq<Byte>, start: int, stop: int, k: int)
    requires b == Bytes(q) && Stored(buf, start, b) && FirstEnd(buf, start, stop, k)
    requires Distance(|buf|, start, stop) == |b|
    requires END !in q.part && (q.frames != [] ==> END !in q.frames[0])
    ensures k == if q.frames == [] then |b| else |q.frames[0]|
  {
    FirstWithin(q);
    if q.frames == [] {
      assert forall j :: 0 <= j < |b| ==> b[j] in q.part;
      if k < |b| { WindowAt(buf, start, |b|, k); }
    } else {
      var f := q.frames[0];
      assert b == f + [END] + Flat(q.frames[1..]) + q.part;
      assert forall j :: 0 <= j < |f| ==> b[j] == f[j] && f[j] in f;
      if k < |f| { WindowAt(buf, start, |b|, k); }
      if k > |f| { WindowAt(buf, start, |b|, |f|); }
    }
  }

  // ----- the driver -----

  /** The byte c is within what the queue model covers: there is room for it, and after an
      ESC it is one of the two escape codes. */
  ghost predicate Fits(q: Queue, size: int, c: Byte) {
    |Bytes(q)| + 1 < size && (Pending(q.part) ==> IsCode(c))
  }

  lemma ReadyExactly(v: Regs, q: Queue)
    requires v in Representations(q)
    ensures Ready(q) <==> v.begin != v.pkt
  {
    FirstWithin(q);
  }

  /** The decode loops over the cells of the first frame give what a poll returns. */
  lemma FrameDecoded(v: Regs, q: Queue, blen: nat)
    requires Reps(v, q) && Ready(q) && |PollOut(q)| <= blen
    ensures v.begin < v.pkt ==> Scan(START, v.buf[v.begin..v.pkt], blen).out == PollOut(q)
    ensures v.begin >= v.pkt ==> Scan(Scan(START, v.buf[v.begin..], blen), v.buf[..v.pkt], blen).out == PollOut(q)
  {
    FirstInMemory(v, q);
    if v.begin < v.pkt {
      ScanFits(START, v.buf[v.begin..v.pkt], blen);
    } else {
      ScanTwice(v.buf[v.begin..], v.buf[..v.pkt], blen);
    }
  }

  lemma ScanTwice(a: seq<Byte>, b: seq<Byte>, blen: nat)
    requires |Decode(START, a + b).out| <= blen
    ensures Scan(Scan(START, a, blen), b, blen) == Decode(START, a + b)
  {
    DecodeAppend(START, a, b);
    DecodeGrows(Decode(START, a), b);
    ScanFits(START, a, blen);
    ScanFits(Decode(START, a), b, blen);
  }

  /** The registers after a byte that found room. */
  function Stepped(w: Regs, c: Byte): Regs
    requires 0 <= w.next < |w.buf|
  {
    if c != END then Added(w, c)
    else if w.next == w.pkt then w.(buf := w.buf[w.next := c])
    else Added(w, c).(pkt := if w.begin == w.pkt then w.next else w.pkt)
  }

  // ----- the registers as a machine -----

  /** No room for another byte. */
  predicate Full(v: Regs) { Wrap(|v.buf|, v.next + 1) == v.begin }

  /** add_char and the handling of END behind it. */
  function CharAdded(w: Regs, c: Byte): Regs
    requires 0 <= w.next < |w.buf|
  {
    if Full(w) then w.(mode := Rubbish, next := w.pkt) else Stepped(w, c)
  }

  /** slip_input_byte. */
  function RxByte(v: Regs, c: Byte): Regs
    requires 0 <= v.next < |v.buf|
  {
    if v.mode == Rubbish then v.(mode := if c == END then Ok else Rubbish)
    else if v.mode == Esc && !IsCode(c) then v.(mode := Rubbish, next := v.pkt)
    else CharAdded(v.(mode := if c == ESC then Esc else if v.mode == Esc then Ok else v.mode), c)
  }

  /** The first END among the n cells from `start` on, from the j-th on; n if there is none. */
  ghost function EndFrom(buf: seq<Byte>, start: int, n: int, j: nat): nat
    requires 0 <= start < |buf| && n < |buf|
    decreases n - j
  {
    if j >= n || CellAt(buf, start, j) == END then j else EndFrom(buf, start, n, j + 1)
  }

  lemma {:induction false} FirstEndFound(buf: seq<Byte>, start: int, stop: int, k: int, j: nat)
    requires FirstEnd(buf, start, stop, k) && j <= k
    ensures EndFrom(buf, start, Distance(|buf|, start, stop), j) == k
    decreases k - j
  {
    if j < k { FirstEndFound(buf, start, stop, k, j + 1); }
  }

  /** The removing half of slip_poll_handler. */
  ghost function RxPoll(v: Regs): Regs
    requires InRange(v)
  {
    if v.begin == v.pkt then v
    else
      var start := Wrap(|v.buf|, v.pkt + 1);
      Removed(v, EndFrom(v.buf, start, Distance(|v.buf|, start, v.next), 0))
  }

  /** The decoder after the copying half: over one range, or over two around the end. */
  ghost function RxDecoder(v: Regs, blen: nat): Decoder
    requires InRange(v)
  {
    if v.begin < v.pkt then Scan(START, v.buf[v.begin..v.pkt], blen)
    else Scan(Scan(START, v.buf[v.begin..], blen), v.buf[..v.pkt], blen)
  }

  /** What a poll returns. */
  ghost function RxOut(v: Regs, blen: nat): seq<Byte>
    requires InRange(v)
  {
    if v.begin == v.pkt then [] else RxDecoder(v, blen).out
  }

  /** How many bytes of its output buffer a poll writes. */
  ghost function RxReach(v: Regs, blen: nat): nat
    requires InRange(v)
  {
    if v.begin == v.pkt then 0
    else if v.begin < v.pkt then ScanReach(START, v.buf[v.begin..v.pkt], blen)
    else
      var first := Scan(START, v.buf[v.begin..], blen);
      var a, b := ScanReach(START, v.buf[v.begin..], blen), ScanReach(first, v.buf[..v.pkt], blen);
      if a >= b then a else b
  }

  /** A byte the queue model covers. */
  lemma RxByteReps(v: Regs, q: Queue, c: Byte)
    requires v in Representations(q) && Fits(q, |v.buf|, c)
    ensures InRange(v) && RxByte(v, c) in Representations(Input(q, c))
  {
    InputReps(v, q, c, v.(mode := if !Pending(q.part) && c == ESC then Esc else Ok));
  }

  lemma RxPollReps(v: Regs, q: Queue)
    requires v in Representations(q)
    ensures InRange(v) && RxPoll(v) in Representations(PollRest(q))
  {
    ReadyExactly(v, q);
    if Ready(q) {
      var start := Wrap(|v.buf|, v.pkt + 1);
      var n := Distance(|v.buf|, start, v.next);
      var k := EndFrom(v.buf, start, n, 0);
      FromIsFirst(v.buf, start, v.next, 0);
      PollReps(v, q, k);
    }
  }

  lemma {:induction false} FromIsFirst(buf: seq<Byte>, start: int, stop: int, j: nat)
    requires 0 <= start < |buf| && 0 <= stop < |buf| && j <= Distance(|buf|, start, stop)
    requires forall i :: 0 <= i < j ==> CellAt(buf, start, i) != END
    ensures FirstEnd(buf, start, stop, EndFrom(buf, start, Distance(|buf|, start, stop), j))
    decreases Distance(|buf|, start, stop) - j
  {
    var n := Distance(|buf|, start, stop);
    if j < n && CellAt(buf, start, j) != END { FromIsFirst(buf, start, stop, j + 1); }
  }

  /** A poll of a represented queue returns its first frame decoded and keeps to blen bytes
      of its output buffer, exactly when the decoded frame fits. */
  lemma RxOutExactly(v: Regs, q: Queue, blen: nat)
    requires v in Representations(q)
    ensures InRange(v) && RxReach(v, blen) <= blen + 1
    ensures RxReach(v, blen) <= blen <==> |PollOut(q)| <= blen
    ensures |PollOut(q)| <= blen ==> RxOut(v, blen) == PollOut(q)
  {
    ReadyExactly(v, q);
    if Ready(q) {
      FirstInMemory(v, q);
      if |PollOut(q)| <= blen { FrameDecoded(v, q, blen); }
      if v.begin < v.pkt {
        ReachBound(START, v.buf[v.begin..v.pkt], blen);
      } else {
        ReachTwice(v.buf[v.begin..], v.buf[..v.pkt], blen);
      }
    }
  }

  /** What a poll returns for every frame, whether it fits or not.  A frame that wraps around
      the end of the buffer and on which the first loop gives up is not dropped: the rest of
      it is returned as if it were a packet. */
  lemma RxOutAlways(v: Regs, q: Queue, blen: nat)
    requires v in Representations(q) && Ready(q)
    ensures InRange(v)
    ensures RxOut(v, blen) ==
            if v.begin > v.pkt && GivesUp(START, v.buf[v.begin..], blen)
            then (if GivesUp(START, v.buf[..v.pkt], blen) then [] else Decode(START, v.buf[..v.pkt]).out)
            else if GivesUp(START, q.frames[0], blen) then [] else PollOut(q)
  {
    FirstInMemory(v, q);
    if v.begin < v.pkt {
      ScanOut(START, q.frames[0], blen);
    } else {
      TwoScans(v.buf[v.begin..], v.buf[..v.pkt], blen);
    }
  }

  /** So a frame longer than blen yields length 0 exactly when a loop gives up on it and, if
      that was the first of two, the rest of the frame yields nothing either. */
  lemma OverlongDroppedExactly(v: Regs, q: Queue, blen: nat)
    requires v in Representations(q) && Ready(q) && |PollOut(q)| > blen
    ensures InRange(v)
    ensures RxOut(v, blen) == [] <==>
            if v.begin > v.pkt && GivesUp(START, v.buf[v.begin..], blen)
            then GivesUp(START, v.buf[..v.pkt], blen) || Decode(START, v.buf[..v.pkt]).out == []
            else GivesUp(START, q.frames[0], blen)
  {
    RxOutAlways(v, q, blen);
  }

  /** Four bytes for an output buffer of one, the last one behind the end of the cyclic
      buffer: a poll returns that last byte as a packet. */
  lemma RestReturned(v: Regs, q: Queue)
    requires v == Regs([4, END, 0, 0, 0, 1, 2, 3], 5, 2, 1, Ok) && q == Queue([[1, 2, 3, 4]], [])
    ensures v in Representations(q) && PollOut(q) == [1, 2, 3, 4] && RxOut(v, 1) == [4]
  {
    var f: seq<Byte> := [1, 2, 3, 4];
    assert Bytes(q) == f + [END];
    assert Window(v.buf, 5, 5) == f + [END];
    PlainDecodes(f);
    PlainDecodes([1, 2]);
    PlainDecodes([]);
    PlainDecodes([4]);
    assert v.buf[5..] == [1, 2, 3] && v.buf[5..][..2] == [1, 2] && v.buf[..1] == [4] && v.buf[..1][..0] == [];
    RxOutAlways(v, q, 1);
  }

  lemma ReachTwice(a: seq<Byte>, b: seq<Byte>, blen: nat)
    ensures var x, y := ScanReach(START, a, blen), ScanReach(Scan(START, a, blen), b, blen);
            x <= blen + 1 && y <= blen + 1 && (x <= blen && y <= blen <==> |Decode(START, a + b).out| <= blen)
  {
    DecodeAppend(START, a, b);
    ReachBound(START, a, blen);
    ReachBound(Scan(START, a, blen), b, blen);
    DecodeGrows(Decode(START, a), b);
    if |Decode(START, a).out| <= blen { ScanFits(START, a, blen); }
  }

  /** What add_char and its END handling make of registers that represent a queue. */
  lemma InputReps(v: Regs, q: Queue, c: Byte, w: Regs)
    requires v in Representations(q) && Fits(q, |v.buf|, c)
    requires w == v.(mode := if !Pending(q.part) && c == ESC then Esc else Ok)
    ensures InRange(w) && Added(w, c).next != w.begin
    ensures c == END ==> (w.next != w.pkt <==> Bytes(q) != [])
    ensures Stepped(w, c) in Representations(Input(q, c))
  {
    if c != END {
      PlainReps(v, q, c, w.mode);
    } else if Bytes(q) != [] {
      EndReps(v, q);
    } else {
      EmptyEndReps(v, q);
    }
  }

  class Receiver {
    const rxbuf: array<Byte>
    var begin: int
    var nextFree: int
    var pktEnd: int
    var mode: Mode
    /** What the buffer stands for, as long as every byte so far was covered. */
    ghost var queue: Queue
    ghost var covered: bool

    ghost function View(): Regs
      reads this, rxbuf
    {
      Regs(rxbuf[..], begin, nextFree, pktEnd, mode)
    }

    ghost predicate Valid()
      reads this, rxbuf
    {
      && 0 <= begin < rxbuf.Length && 0 <= nextFree < rxbuf.Length && 0 <= pktEnd < rxbuf.Length
      && (covered ==> View() in Representations(queue))
    }

    /** rxbuf_init. */
    constructor (size: nat)
      requires size > 0
      ensures Valid() && covered && queue == Queue([], []) && rxbuf.Length == size
    {
      rxbuf := new Byte[size];
      begin, nextFree, pktEnd, mode := 0, 0, 0, Ok;
      queue, covered := Queue([], []), true;
      new;
      assert Reps(View(), queue);
    }

    /** slip_input_byte.  A covered byte extends the queue; 1 is returned when it closed a
        frame. */
    method InputByte(c: Byte) returns (r: int)
      requires Valid()
      modifies this`nextFree, this`pktEnd, this`mode, this`queue, this`covered, rxbuf
      ensures Valid()
      ensures covered == (old(covered) && Fits(old(queue), rxbuf.Length, c))
      ensures covered ==> queue == Input(old(queue), c)
      ensures covered ==> r == if c == END && Bytes(old(queue)) != [] then 1 else 0
      ensures View() == RxByte(old(View()), c)
    {
      covered := covered && Fits(queue, rxbuf.Length, c);
      ghost var v, q := View(), queue;
      queue := Input(queue, c);
      if mode == Rubbish {
        if c == END { mode := Ok; }
        return 0;
      } else if mode == Esc {
        if c != ESC_END && c != ESC_ESC {
          mode := Rubbish;
          nextFree := pktEnd;
          return 0;
        }
        mode := Ok;
      }
      if c == ESC { mode := Esc; }
      r := AddChar(c, v, q);
    }

    /** add_char, and the handling of END behind it. */
    method AddChar(c: Byte, ghost v: Regs, ghost q: Queue) returns (r: int)
      requires 0 <= begin < rxbuf.Length && 0 <= nextFree < rxbuf.Length && 0 <= pktEnd < rxbuf.Length
      requires covered ==>
                 && v in Representations(q) && Fits(q, rxbuf.Length, c) && queue == Input(q, c)
                 && View() == v.(mode := if !Pending(q.part) && c == ESC then Esc else Ok)
      modifies this`nextFree, this`pktEnd, this`mode, rxbuf
      ensures Valid() && View() == CharAdded(old(View()), c)
      ensures covered ==> r == if c == END && Bytes(q) != [] then 1 else 0
    {
      ghost var w := View();
      if covered { InputReps(v, q, c, w); }
      var curEnd := nextFree;
      nextFree := nextFree + 1;
      if nextFree == rxbuf.Length { nextFree := 0; }
      if nextFree == begin {
        mode := Rubbish;
        nextFree := pktEnd;
        return 0;
      }
      rxbuf[curEnd] := c;
      r := 0;
      if c == END {
        if curEnd != pktEnd {
          if begin == pktEnd { pktEnd := curEnd; }
          r := 1;
        } else {
          nextFree := curEnd;
        }
      }
      assert View() == Stepped(w, c);
    }

    /** One decode loop of slip_poll_handler over rxbuf[lo..hi], behind the `len` bytes
        already in outbuf.  It leaves outbuf from ScanReach on alone. */
    method DecodeRange(lo: int, hi: int, outbuf: array<Byte>, len: nat, esc: bool, blen: nat) returns (len': nat, esc': bool)
      requires 0 <= lo <= hi <= rxbuf.Length && outbuf != rxbuf && len <= blen + 1 <= outbuf.Length
      modifies outbuf
      ensures len' <= blen + 1
      ensures Decoder(outbuf[..len'], esc') == Scan(Decoder(old(outbuf[..len]), esc), rxbuf[lo..hi], blen)
      ensures forall j :: ScanReach(Decoder(old(outbuf[..len]), esc), rxbuf[lo..hi], blen) <= j < outbuf.Length ==>
                outbuf[j] == old(outbuf[j])
    {
      len', esc' := len, esc;
      var i := lo;
      ghost var d := Decoder(outbuf[..len], esc);
      while i < hi
        invariant lo <= i <= hi && len' <= blen + 1
        invariant Scan(d, rxbuf[lo..hi], blen) == Scan(Decoder(outbuf[..len'], esc'), rxbuf[i..hi], blen)
        invariant ScanReach(d, rxbuf[lo..hi], blen) == ScanReach(Decoder(outbuf[..len'], esc'), rxbuf[i..hi], blen)
        invariant forall j :: len' <= j < outbuf.Length ==> outbuf[j] == old(outbuf[j])
      {
        if len' > blen {
          len' := 0;
          return;
        }
        ghost var e := Decoder(outbuf[..len'], esc');
        var b := rxbuf[i];
        assert rxbuf[i..hi][0] == b && rxbuf[i..hi][1..] == rxbuf[i + 1..hi];
        len', esc' := DecodeInto(outbuf, len', esc', b);
        assert Decoder(outbuf[..len'], esc') == DecodeByte(e, b);
        i := i + 1;
      }
      assert rxbuf[i..hi] == [];
    }

    /** One byte of the decode loop. */
    method DecodeInto(outbuf: array<Byte>, len: nat, esc: bool, b: Byte) returns (len': nat, esc': bool)
      requires len < outbuf.Length
      modifies outbuf
      ensures len <= len' <= len + 1 && Decoder(outbuf[..len'], esc') == DecodeByte(Decoder(old(outbuf[..len]), esc), b)
      ensures forall j :: 0 <= j < outbuf.Length && (j != len || len' == len) ==> outbuf[j] == old(outbuf[j])
    {
      len', esc' := len, false;
      if esc {
        if b == ESC_ESC {
          outbuf[len] := ESC;
          len' := len + 1;
        } else if b == ESC_END {
          outbuf[len] := END;
          len' := len + 1;
        }
      } else if b == ESC {
        esc' := true;
      } else {
        outbuf[len] := b;
        len' := len + 1;
      }
    }

    /** The copying half of slip_poll_handler: the frame in one piece, or in two around the
        end of the buffer. */
    method ReadFrame(outbuf: array<Byte>, blen: nat) returns (len: nat)
      requires Valid() && begin != pktEnd && outbuf != rxbuf && outbuf.Length > blen
      modifies outbuf
      ensures len <= blen + 1 && outbuf[..len] == RxOut(View(), blen)
      ensures forall j :: RxReach(View(), blen) <= j < outbuf.Length ==> outbuf[j] == old(outbuf[j])
    {
      var esc;
      ghost var v := View();
      assert outbuf[..0] == [];
      if begin < pktEnd {
        assert v.buf[begin..pktEnd] == rxbuf[begin..pktEnd];
        len, esc := DecodeRange(begin, pktEnd, outbuf, 0, false, blen);
      } else {
        assert v.buf[begin..] == rxbuf[begin..rxbuf.Length] && v.buf[..pktEnd] == rxbuf[0..pktEnd];
        len, esc := DecodeRange(begin, rxbuf.Length, outbuf, 0, false, blen);
        len, esc := DecodeRange(0, pktEnd, outbuf, len, esc, blen);
      }
    }

    /** The search for the END of the next frame. */
    method FindEnd(start: int, stop: int) returns (cur: int, ghost k: int)
      requires 0 <= start < rxbuf.Length && 0 <= stop < rxbuf.Length
      ensures FirstEnd(rxbuf[..], start, stop, k) && cur == Wrap(rxbuf.Length, start + k)
      ensures cur == stop <==> k == Distance(rxbuf.Length, start, stop)
      ensures 0 <= cur < rxbuf.Length && (cur == stop || rxbuf[cur] == END)
    {
      cur, k := start, 0;
      while cur != stop && rxbuf[cur] != END
        invariant 0 <= k <= Distance(rxbuf.Length, start, stop)
        invariant cur == Wrap(rxbuf.Length, start + k)
        invariant forall j :: 0 <= j < k ==> CellAt(rxbuf[..], start, j) != END
        decreases Distance(rxbuf.Length, start, stop) - k
      {
        assert CellAt(rxbuf[..], start, k) == rxbuf[cur];
        cur := cur + 1;
        if cur == rxbuf.Length { cur := 0; }
        k := k + 1;
      }
    }

    /** slip_poll_handler: the first frame is decoded into outbuf and removed.  It writes
        RxReach bytes of outbuf, at most one more than blen, so outbuf stands for the blen
        bytes the caller gives and what lies behind them. */
    method Poll(outbuf: array<Byte>, blen: nat) returns (len: nat)
      requires Valid() && outbuf != rxbuf && outbuf.Length > blen
      modifies this`begin, this`pktEnd, this`queue, outbuf
      ensures Valid() && (covered ==> queue == PollRest(old(queue)))
      ensures len <= blen + 1 && outbuf[..len] == RxOut(old(View()), blen) && View() == RxPoll(old(View()))
      ensures forall j :: RxReach(old(View()), blen) <= j < outbuf.Length ==> outbuf[j] == old(outbuf[j])
      ensures covered && |PollOut(old(queue))| <= blen ==> outbuf[..len] == PollOut(old(queue))
    {
      if covered { ReadyExactly(View(), queue); RxOutExactly(View(), queue, blen); }
      if begin == pktEnd { return 0; }
      len := ReadFrame(outbuf, blen);
      Remove();
    }

    /** The removing half of slip_poll_handler: the used space starts after the frame, and
        pktEnd goes to the END of the next one if there is one. */
    method Remove()
      requires Valid() && begin != pktEnd && (covered ==> Ready(queue))
      modifies this`begin, this`pktEnd, this`queue
      ensures Valid() && (covered ==> queue == PollRest(old(queue))) && View() == RxPoll(old(View()))
    {
      ghost var v := View();
      ghost var k := SkipFrame();
      FirstEndFound(v.buf, Wrap(|v.buf|, v.pkt + 1), v.next, k, 0);
      if covered { PollReps(v, queue, k); }
      queue := PollRest(queue);
    }

    method SkipFrame() returns (ghost k: int)
      requires 0 <= begin < rxbuf.Length && 0 <= nextFree < rxbuf.Length && 0 <= pktEnd < rxbuf.Length
      modifies this`begin, this`pktEnd
      ensures 0 <= begin < rxbuf.Length && 0 <= pktEnd < rxbuf.Length
      ensures FirstEnd(rxbuf[..], Wrap(rxbuf.Length, old(pktEnd) + 1), nextFree, k)
      ensures View() == Removed(old(View()), k)
    {
      pktEnd := pktEnd + 1;
      if pktEnd == rxbuf.Length { pktEnd := 0; }
      begin, k := pktEnd, 0;
      if pktEnd != nextFree {
        var cur;
        cur, k := FindEnd(pktEnd, nextFree);
        if cur != nextFree { pktEnd := cur; }
      }
    }
  }
}
