/** What the receive buffer of contiki-ng/os/dev/slip.c means: a queue of frames and a
    frame in progress, as raw (still escaped) bytes.  This is the behaviour between
    overflows and invalid escapes; Slip.dfy proves the cyclic buffer refines it. */
module SlipQueue {
  import opened Bits
  import opened SlipCodec

  datatype Queue = Queue(frames: seq<seq<Byte>>, part: seq<Byte>)

  /** The bytes in the buffer, each frame closed by its END. */
  function Flat(frames: seq<seq<Byte>>): seq<Byte> {
    if frames == [] then [] else frames[0] + [END] + Flat(frames[1..])
  }

  function Bytes(q: Queue): seq<Byte> { Flat(q.frames) + q.part }

  lemma {:induction false} FlatAppend(frames: seq<seq<Byte>>, f: seq<Byte>)
    ensures Flat(frames + [f]) == Flat(frames) + f + [END]
  {
    if frames == [] {
      assert [f][1..] == [];
    } else {
      FlatAppend(frames[1..], f);
      assert (frames + [f])[1..] == frames[1..] + [f];
    }
  }

  /** An END with nothing before it is ignored when no frame waits.  It is stored when one
      waits; once such an empty frame is first in the queue the reader no longer sees a
      frame, and the next END closes one frame over all that is there. */
  function Input(q: Queue, c: Byte): Queue {
    if c != END then Queue(q.frames, q.part + [c])
    else if q.frames == [] && q.part == [] then q
    else if q.frames != [] && q.frames[0] == [] then Queue([Bytes(q)], [])
    else Queue(q.frames + [q.part], [])
  }

  predicate Ready(q: Queue) { q.frames != [] && q.frames[0] != [] }

  /** A poll: the decoded first frame, or nothing when none is seen. */
  function PollOut(q: Queue): seq<Byte> {
    if Ready(q) then Decode(START, q.frames[0]).out else []
  }

  function PollRest(q: Queue): Queue {
    if Ready(q) then Queue(q.frames[1..], q.part) else q
  }

  /** Whether the last byte was an ESC that still waits for its second byte. */
  function Pending(part: seq<Byte>): bool { Decode(START, part).esc }

  lemma PendingAppend(part: seq<Byte>, c: Byte)
    ensures Pending(part + [c]) <==> !Pending(part) && c == ESC
  {
    DecodeAppend(START, part, [c]);
    DecodeOne(Decode(START, part), c);
  }

  function FeedAll(q: Queue, bytes: seq<Byte>): Queue {
    if bytes == [] then q else Input(FeedAll(q, bytes[..|bytes| - 1]), bytes[|bytes| - 1])
  }

  lemma {:induction false} FeedAppend(q: Queue, a: seq<Byte>, b: seq<Byte>)
    ensures FeedAll(q, a + b) == FeedAll(FeedAll(q, a), b)
    decreases |b|
  {
    if b == [] {
      assert a + b == a;
    } else {
      FeedAppend(q, a, b[..|b| - 1]);
      assert (a + b)[..|a + b| - 1] == a + b[..|b| - 1];
    }
  }

  lemma {:induction false} FeedPlain(q: Queue, bytes: seq<Byte>)
    requires END !in bytes
    ensures FeedAll(q, bytes) == Queue(q.frames, q.part + bytes)
  {
    if bytes == [] {
      assert q.part + bytes == q.part;
    } else {
      FeedPlain(q, bytes[..|bytes| - 1]);
      assert q.part + bytes[..|bytes| - 1] + [bytes[|bytes| - 1]] == q.part + bytes;
    }
  }

  lemma FeedEnd(q: Queue, bytes: seq<Byte>)
    requires END !in bytes
    ensures FeedAll(q, bytes + [END]) == Input(Queue(q.frames, q.part + bytes), END)
  {
    FeedPlain(q, bytes);
    assert (bytes + [END])[..|bytes|] == bytes;
  }

  lemma FeedOne(q: Queue, c: Byte)
    ensures FeedAll(q, [c]) == Input(q, c)
  {
    var one := [c];
    assert one[..0] == [];
  }

  /** All waiting frames were sent as one packet each and none is empty. */
  ghost predicate Clean(q: Queue) {
    && (forall i :: 0 <= i < |q.frames| ==> q.frames[i] != [] && END !in q.frames[i])
    && END !in q.part
  }

  function PollTimes(q: Queue, n: nat): Queue {
    if n == 0 then q else PollRest(PollTimes(q, n - 1))
  }

  lemma {:induction false} PollClean(q: Queue, n: nat)
    requires n <= |q.frames| && forall i :: 0 <= i < n ==> q.frames[i] != []
    ensures PollTimes(q, n) == Queue(q.frames[n..], q.part)
  {
    if n > 0 { PollClean(q, n - 1); }
  }

  lemma WriteFeeds(q: Queue, raw: seq<Byte>)
    requires q.part == [] && END !in raw
    ensures FeedAll(q, [END] + raw + [END]) == Input(Queue(Input(q, END).frames, Input(q, END).part + raw), END)
  {
    assert [END] + raw + [END] == [END] + (raw + [END]);
    FeedAppend(q, [END], raw + [END]);
    FeedOne(q, END);
    FeedEnd(Input(q, END), raw);
  }

  lemma WriteToWaiting(q: Queue, raw: seq<Byte>)
    requires Clean(q) && q.part == [] && q.frames != [] && END !in raw
    ensures PollOut(PollTimes(FeedAll(q, [END] + raw + [END]), |q.frames|)) == []
  {
    WriteFeeds(q, raw);
    assert [] + raw == raw;
    var q', n := FeedAll(q, [END] + raw + [END]), |q.frames|;
    assert q'.frames == q.frames + [[]] + [raw];
    PollClean(q', n);
    assert q'.frames[n..][0] == [];
  }

  // ----- streams of packets -----

  /** A frame on the wire, with or without a leading END. */
  function Frame(lead: bool, raw: seq<Byte>): seq<Byte> {
    (if lead then [END] else []) + raw + [END]
  }

  function Stream(packets: seq<(bool, seq<Byte>)>): seq<Byte> {
    if packets == [] then []
    else Stream(packets[..|packets| - 1]) + Frame(packets[|packets| - 1].0, Escape(packets[|packets| - 1].1))
  }

  /** Bytes arriving and polls, in any order. */
  datatype Event = Arrive(c: Byte) | Poll

  datatype Trace = Trace(q: Queue, heard: seq<Byte>, out: seq<seq<Byte>>)

  function Play(events: seq<Event>): Trace {
    if events == [] then Trace(Queue([], []), [], [])
    else
      var t := Play(events[..|events| - 1]);
      match events[|events| - 1]
      case Arrive(c) => Trace(Input(t.q, c), t.heard + [c], t.out)
      case Poll => Trace(PollRest(t.q), t.heard, if Ready(t.q) then t.out + [PollOut(t.q)] else t.out)
  }

  /** No END with nothing before it arrives while a frame is waiting. */
  ghost predicate Disciplined(events: seq<Event>) {
    events == [] ||
    (&& Disciplined(events[..|events| - 1])
     && var q := Play(events[..|events| - 1]).q;
        !(events[|events| - 1] == Arrive(END) && q.part == [] && q.frames != []))
  }

  /** The frames of a byte stream: cut at every END, empty ones dropped. */
  function Frames(heard: seq<Byte>): Queue {
    if heard == [] then Queue([], [])
    else
      var q, c := Frames(heard[..|heard| - 1]), heard[|heard| - 1];
      if c != END then Queue(q.frames, q.part + [c])
      else if q.part == [] then q
      else Queue(q.frames + [q.part], [])
  }

  function DecodeAll(frames: seq<seq<Byte>>): seq<seq<Byte>> {
    if frames == [] then []
    else DecodeAll(frames[..|frames| - 1]) + [Decode(START, frames[|frames| - 1]).out]
  }

  lemma {:induction false} DecodeAllAppend(a: seq<seq<Byte>>, b: seq<seq<Byte>>)
    ensures DecodeAll(a + b) == DecodeAll(a) + DecodeAll(b)
    decreases |b|
  {
    if b == [] {
      assert a + b == a;
    } else {
      DecodeAllAppend(a, b[..|b| - 1]);
      assert (a + b)[..|a + b| - 1] == a + b[..|b| - 1];
    }
  }

  lemma DecodeAllOne(f: seq<Byte>)
    ensures DecodeAll([f]) == [Decode(START, f).out]
  {
    var one := [f];
    assert one[..0] == [];
  }

  /** What was polled and what still waits, together, are the frames of the bytes heard. */
  ghost predicate Accounted(t: Trace) {
    && Clean(t.q) && t.q.part == Frames(t.heard).part
    && t.out + DecodeAll(t.q.frames) == DecodeAll(Frames(t.heard).frames)
  }

  lemma ArriveAccounted(t: Trace, c: Byte)
    requires Accounted(t) && !(c == END && t.q.part == [] && t.q.frames != [])
    ensures Accounted(Trace(Input(t.q, c), t.heard + [c], t.out))
  {
    FramesNext(t.heard, c);
    if c == END && t.q.part != [] {
      DecodeAllAppend(t.q.frames, [t.q.part]);
      DecodeAllAppend(Frames(t.heard).frames, [t.q.part]);
    }
  }

  lemma FramesNext(heard: seq<Byte>, c: Byte)
    ensures var q := Frames(heard);
            Frames(heard + [c]) ==
              if c != END then Queue(q.frames, q.part + [c])
              else if q.part == [] then q
              else Queue(q.frames + [q.part], [])
  {
    var h := heard + [c];
    assert h[..|h| - 1] == heard;
  }

  lemma PollAccounted(t: Trace)
    requires Accounted(t) && Ready(t.q)
    ensures Accounted(Trace(PollRest(t.q), t.heard, t.out + [PollOut(t.q)]))
  {
    var fs := t.q.frames;
    assert fs == [fs[0]] + fs[1..];
    DecodeAllAppend([fs[0]], fs[1..]);
    DecodeAllOne(fs[0]);
  }

  /** In every disciplined run nothing is lost, doubled or reordered. */
  lemma {:induction false} PlayAccounted(events: seq<Event>)
    requires Disciplined(events)
    ensures Accounted(Play(events))
  {
    if events != [] {
      var before := events[..|events| - 1];
      PlayAccounted(before);
      var t := Play(before);
      match events[|events| - 1] {
        case Arrive(c) => ArriveAccounted(t, c);
        case Poll => if Ready(t.q) { PollAccounted(t); }
      }
    }
  }

  function Packets(packets: seq<(bool, seq<Byte>)>): (r: seq<seq<Byte>>)
    ensures |r| == |packets|
  {
    if packets == [] then [] else Packets(packets[..|packets| - 1]) + [packets[|packets| - 1].1]
  }

  lemma {:induction false} FramesAppend(a: seq<Byte>, f: seq<Byte>)
    requires END !in f && Frames(a).part == [] && f != []
    ensures Frames(a + f) == Queue(Frames(a).frames, f)
    decreases |f|
  {
    var u := f[..|f| - 1];
    if u == [] { assert a + u == a; } else { FramesAppend(a, u); }
    var af := a + f;
    assert af[..|af| - 1] == a + u;
  }

  lemma FramesAppendEnd(a: seq<Byte>, f: seq<Byte>)
    requires END !in f && Frames(a).part == [] && f != []
    ensures Frames(a + f + [END]) == Queue(Frames(a).frames + [f], [])
  {
    FramesAppend(a, f);
    var all := a + f + [END];
    assert all[..|all| - 1] == a + f;
  }

  lemma FrameAssociates(s: seq<Byte>, lead: bool, f: seq<Byte>)
    ensures s + Frame(lead, f) == (if lead then s + [END] else s) + f + [END]
  {}

  lemma LeadIgnored(s: seq<Byte>)
    requires Frames(s).part == []
    ensures Frames(s + [END]) == Frames(s)
  {
    assert (s + [END])[..|s|] == s;
  }

  lemma FrameAdds(s: seq<Byte>, lead: bool, f: seq<Byte>)
    requires Frames(s).part == [] && END !in f && f != []
    ensures Frames(s + Frame(lead, f)) == Queue(Frames(s).frames + [f], [])
  {
    FrameAssociates(s, lead, f);
    if lead {
      LeadIgnored(s);
      FramesAppendEnd(s + [END], f);
    } else {
      FramesAppendEnd(s, f);
    }
  }

  lemma PacketAdds(s: seq<Byte>, lead: bool, p: seq<Byte>)
    requires Frames(s).part == [] && p != []
    ensures Frames(s + Frame(lead, Escape(p))).part == []
    ensures DecodeAll(Frames(s + Frame(lead, Escape(p))).frames) == DecodeAll(Frames(s).frames) + [p]
  {
    EscapeHasNoEnd(p);
    FrameAdds(s, lead, Escape(p));
    DecodeAllAppend(Frames(s).frames, [Escape(p)]);
    DecodeAllOne(Escape(p));
    RoundTrip(p, []);
    assert [] + p == p;
  }

  /** The frames of a stream of packets are its packets. */
  lemma {:induction false} StreamFrames(packets: seq<(bool, seq<Byte>)>)
    requires forall i :: 0 <= i < |packets| ==> packets[i].1 != []
    ensures Frames(Stream(packets)).part == []
    ensures DecodeAll(Frames(Stream(packets)).frames) == Packets(packets)
  {
    if packets != [] {
      var u, k := packets[..|packets| - 1], packets[|packets| - 1];
      StreamFrames(u);
      PacketAdds(Stream(u), k.0, k.1);
    }
  }

  /** For any stream of non-empty packets and any disciplined interleaving of its bytes
      with polls: the polls have returned the first packets, in order and unchanged, and
      the packets still waiting in the buffer are the rest. */
  lemma PollsReturnPackets(events: seq<Event>, packets: seq<(bool, seq<Byte>)>)
    requires Disciplined(events) && Play(events).heard == Stream(packets)
    requires forall i :: 0 <= i < |packets| ==> packets[i].1 != []
    ensures Play(events).out + DecodeAll(Play(events).q.frames) == Packets(packets)
  {
    PlayAccounted(events);
    StreamFrames(packets);
  }

  // ----- escapes are complete -----

  predicate IsCode(c: Byte) { c == ESC_END || c == ESC_ESC }

  /** Every ESC of a stream is followed by one of the two codes. */
  predicate WellEscaped(s: seq<Byte>) {
    s == [] || (WellEscaped(s[..|s| - 1]) && (Pending(Frames(s[..|s| - 1]).part) ==> IsCode(s[|s| - 1])))
  }

  lemma WellNext(s: seq<Byte>, c: Byte)
    requires WellEscaped(s) && (Pending(Frames(s).part) ==> IsCode(c))
    ensures WellEscaped(s + [c])
  {
    var all := s + [c];
    assert all[..|all| - 1] == s;
  }

  lemma {:induction false} WellPrefix(s: seq<Byte>, t: seq<Byte>)
    requires s <= t && WellEscaped(t)
    ensures WellEscaped(s)
    decreases |t|
  {
    if s != t { WellPrefix(s, t[..|t| - 1]); }
  }

  lemma EscapeComplete(p: seq<Byte>)
    ensures !Pending(Escape(p))
  {
    RoundTrip(p, []);
  }

  lemma AddWell(s: seq<Byte>, c: Byte)
    requires WellEscaped(s) && c != END && (Pending(Frames(s).part) ==> IsCode(c))
    ensures WellEscaped(s + [c]) && Frames(s + [c]) == Queue(Frames(s).frames, Frames(s).part + [c])
    ensures Pending(Frames(s + [c]).part) <==> !Pending(Frames(s).part) && c == ESC
  {
    FramesNext(s, c);
    WellNext(s, c);
    PendingAppend(Frames(s).part, c);
  }

  /** One byte of a packet, escaped, behind what is already well escaped. */
  lemma EscapeByteWell(s: seq<Byte>, c: Byte)
    requires WellEscaped(s) && !Pending(Frames(s).part)
    ensures WellEscaped(s + EscapeByte(c))
    ensures Frames(s + EscapeByte(c)) == Queue(Frames(s).frames, Frames(s).part + EscapeByte(c))
  {
    if c == END {
      CodeWell(s, ESC_END);
    } else if c == ESC {
      CodeWell(s, ESC_ESC);
    } else {
      AddWell(s, c);
    }
  }

  lemma CodeWell(s: seq<Byte>, code: Byte)
    requires WellEscaped(s) && !Pending(Frames(s).part) && IsCode(code)
    ensures WellEscaped(s + [ESC, code])
    ensures Frames(s + [ESC, code]) == Queue(Frames(s).frames, Frames(s).part + [ESC, code])
  {
    AddWell(s, ESC);
    AddWell(s + [ESC], code);
    AppendTwo(s, ESC, code);
    AppendTwo(Frames(s).part, ESC, code);
  }

  lemma AppendTwo(s: seq<Byte>, a: Byte, b: Byte)
    ensures s + [a] + [b] == s + [a, b]
  {}

  lemma {:induction false} EscapeWell(s: seq<Byte>, p: seq<Byte>)
    requires WellEscaped(s) && Frames(s).part == []
    ensures WellEscaped(s + Escape(p)) && Frames(s + Escape(p)) == Queue(Frames(s).frames, Escape(p))
  {
    if p == [] {
      assert s + Escape(p) == s;
    } else {
      var u, c := p[..|p| - 1], p[|p| - 1];
      EscapeWell(s, u);
      EscapeComplete(u);
      EscapeByteWell(s + Escape(u), c);
      AppendAssociates(s, Escape(u), EscapeByte(c));
    }
  }

  lemma AppendAssociates(a: seq<Byte>, b: seq<Byte>, c: seq<Byte>)
    ensures a + b + c == a + (b + c)
  {}

  lemma {:induction false} StreamWell(packets: seq<(bool, seq<Byte>)>)
    requires forall i :: 0 <= i < |packets| ==> packets[i].1 != []
    ensures WellEscaped(Stream(packets))
  {
    if packets != [] {
      var u, k := packets[..|packets| - 1], packets[|packets| - 1];
      StreamWell(u);
      StreamFrames(u);
      PendingNothing();
      FrameWell(Stream(u), k.0, k.1);
    }
  }

  lemma PendingNothing()
    ensures !Pending([])
  {}

  lemma FrameWell(s: seq<Byte>, lead: bool, p: seq<Byte>)
    requires WellEscaped(s) && Frames(s).part == []
    ensures WellEscaped(s + Frame(lead, Escape(p)))
  {
    var s0 := if lead then s + [END] else s;
    PendingNothing();
    if lead { WellNext(s, END); LeadIgnored(s); }
    EscapeWell(s0, p);
    EscapeComplete(p);
    WellNext(s0 + Escape(p), END);
    FrameAssociates(s, lead, Escape(p));
  }

  /** Frames that are complete stay as a stream grows. */
  lemma {:induction false} FramesGrow(s: seq<Byte>, t: seq<Byte>)
    requires s <= t
    ensures Frames(s).frames <= Frames(t).frames
    decreases |t|
  {
    if s != t { FramesGrow(s, t[..|t| - 1]); }
  }

  lemma {:induction false} DecodeAllAt(frames: seq<seq<Byte>>, i: nat)
    requires i < |frames|
    ensures |DecodeAll(frames)| == |frames| && DecodeAll(frames)[i] == Decode(START, frames[i]).out
  {
    if |frames| > 1 { DecodeAllAt(frames[..|frames| - 1], if i < |frames| - 1 then i else 0); }
  }

  /** What a disciplined run polls next is one of the packets of the stream it hears. */
  lemma NextIsPacket(events: seq<Event>, packets: seq<(bool, seq<Byte>)>) returns (i: nat)
    requires Disciplined(events) && Play(events).heard <= Stream(packets) && Ready(Play(events).q)
    requires forall i :: 0 <= i < |packets| ==> packets[i].1 != []
    ensures i < |packets| && PollOut(Play(events).q) == packets[i].1
  {
    var t := Play(events);
    PlayAccounted(events);
    StreamFrames(packets);
    FramesGrow(t.heard, Stream(packets));
    var heard, all := Frames(t.heard).frames, Frames(Stream(packets)).frames;
    DecodeAllAppend(heard, all[|heard|..]);
    assert heard + all[|heard|..] == all;
    DecodeAllAt(t.q.frames, 0);
    i := |t.out|;
    assert (t.out + DecodeAll(t.q.frames))[i] == DecodeAll(t.q.frames)[0];
    assert DecodeAll(all)[i] == PollOut(t.q);
    PacketsAt(packets, i);
  }

  lemma {:induction false} PacketsAt(packets: seq<(bool, seq<Byte>)>, i: nat)
    requires i < |packets|
    ensures Packets(packets)[i] == packets[i].1
  {
    if |packets| > 1 { PacketsAt(packets[..|packets| - 1], if i < |packets| - 1 then i else 0); }
  }
}
