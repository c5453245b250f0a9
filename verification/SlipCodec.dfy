/** The framing of contiki-ng/os/dev/slip.c: what slip_write puts on the wire and how the
    decode loops of slip_poll_handler undo it (PROTOCOL section of RFC 1055). */
module SlipCodec {
  import opened Bits

  const END: Byte := 192
  const ESC: Byte := 219
  const ESC_END: Byte := 220
  const ESC_ESC: Byte := 221

  function EscapeByte(c: Byte): seq<Byte> {
    if c == END then [ESC, ESC_END] else if c == ESC then [ESC, ESC_ESC] else [c]
  }

  function Escape(p: seq<Byte>): seq<Byte> {
    if p == [] then [] else Escape(p[..|p| - 1]) + EscapeByte(p[|p| - 1])
  }

  /** The bytes on the wire: 192 ends a packet, 219 220 stands for 192 and 219 221 for 219;
      every other byte is sent as it is. */
  lemma WireBytes(c: Byte)
    ensures END == 192 && EscapeByte(192) == [219, 220] && EscapeByte(219) == [219, 221]
    ensures c != 192 && c != 219 ==> EscapeByte(c) == [c]
  {}

  lemma EscapeNext(p: seq<Byte>, i: nat)
    requires i < |p|
    ensures Escape(p[..i + 1]) == Escape(p[..i]) + EscapeByte(p[i])
  {
    assert p[..i + 1][..i] == p[..i];
  }

  /** slip_write: a leading END, the escaped bytes, a closing END.  The loop index has 16
      bits, so it ends only for lengths that fit them. */
  method Write(p: seq<Byte>) returns (out: seq<Byte>)
    requires |p| < 0x1_0000
    ensures out == [END] + Escape(p) + [END]
  {
    out := [END];
    var i := 0;
    while i < |p|
      invariant 0 <= i <= |p|
      invariant out == [END] + Escape(p[..i])
    {
      var c := p[i];
      EscapeNext(p, i);
      if c == END {
        out := out + [ESC];
        c := ESC_END;
      } else if c == ESC {
        out := out + [ESC];
        c := ESC_ESC;
      }
      out := out + [c];
      i := i + 1;
    }
    assert p[..i] == p;
    out := out + [END];
  }

  /** The decoder: bytes put out so far, and whether an ESC is pending. */
  datatype Decoder = Decoder(out: seq<Byte>, esc: bool)

  function DecodeByte(d: Decoder, b: Byte): Decoder {
    if d.esc then
      if b == ESC_ESC then Decoder(d.out + [ESC], false)
      else if b == ESC_END then Decoder(d.out + [END], false)
      else Decoder(d.out, false)
    else if b == ESC then Decoder(d.out, true)
    else Decoder(d.out + [b], false)
  }

  function Decode(d: Decoder, raw: seq<Byte>): Decoder {
    if raw == [] then d else DecodeByte(Decode(d, raw[..|raw| - 1]), raw[|raw| - 1])
  }

  const START := Decoder([], false)

  lemma {:induction false} DecodeAppend(d: Decoder, a: seq<Byte>, b: seq<Byte>)
    ensures Decode(d, a + b) == Decode(Decode(d, a), b)
    decreases |b|
  {
    if b == [] {
      assert a + b == a;
    } else {
      DecodeAppend(d, a, b[..|b| - 1]);
      assert (a + b)[..|a + b| - 1] == a + b[..|b| - 1];
    }
  }

  lemma DecodeOne(d: Decoder, b: Byte)
    ensures Decode(d, [b]) == DecodeByte(d, b)
  {
    assert [b][..0] == [];
  }

  /** Without ESC nothing is to undo. */
  lemma {:induction false} PlainDecodes(f: seq<Byte>)
    requires ESC !in f
    ensures Decode(START, f) == Decoder(f, false)
  {
    if f != [] {
      PlainDecodes(f[..|f| - 1]);
      assert f[..|f| - 1] + [f[|f| - 1]] == f;
    }
  }

  lemma {:induction false} DecodeGrows(d: Decoder, raw: seq<Byte>)
    ensures |d.out| <= |Decode(d, raw).out|
  {
    if raw != [] { DecodeGrows(d, raw[..|raw| - 1]); }
  }

  /** Decoding an escaped packet gives the packet back, whatever was decoded before. */
  lemma {:induction false} RoundTrip(p: seq<Byte>, before: seq<Byte>)
    ensures Decode(Decoder(before, false), Escape(p)) == Decoder(before + p, false)
  {
    if p == [] {
      assert before + p == before;
    } else {
      var u, c := p[..|p| - 1], p[|p| - 1];
      RoundTrip(u, before);
      DecodeAppend(Decoder(before, false), Escape(u), EscapeByte(c));
      ByteRoundTrip(before + u, c);
      assert before + u + [c] == before + p;
    }
  }

  lemma ByteRoundTrip(before: seq<Byte>, c: Byte)
    ensures Decode(Decoder(before, false), EscapeByte(c)) == Decoder(before + [c], false)
  {
    var d, e := Decoder(before, false), EscapeByte(c);
    if |e| == 2 {
      assert e == [e[0]] + [e[1]];
      DecodeAppend(d, [e[0]], [e[1]]);
      DecodeOne(d, e[0]);
      DecodeOne(Decoder(before, true), e[1]);
    } else {
      DecodeOne(d, c);
    }
  }

  /** No END appears inside an escaped packet, and it is empty only for an empty packet. */
  lemma {:induction false} EscapeHasNoEnd(p: seq<Byte>)
    ensures END !in Escape(p) && |Escape(p)| >= |p|
  {
    if p != [] { EscapeHasNoEnd(p[..|p| - 1]); }
  }

  /** The decode loop with its length check: past blen bytes it gives up with nothing. */
  function Scan(d: Decoder, raw: seq<Byte>, blen: nat): Decoder
    decreases |raw|
  {
    if raw == [] then d
    else if |d.out| > blen then Decoder([], d.esc)
    else Scan(DecodeByte(d, raw[0]), raw[1..], blen)
  }

  /** A packet that fits is decoded as if there were no check. */
  lemma {:induction false} ScanFits(d: Decoder, raw: seq<Byte>, blen: nat)
    requires |Decode(d, raw).out| <= blen
    ensures Scan(d, raw, blen) == Decode(d, raw)
    decreases |raw|
  {
    if raw != [] {
      assert raw == [raw[0]] + raw[1..];
      DecodeAppend(d, [raw[0]], raw[1..]);
      DecodeOne(d, raw[0]);
      DecodeGrows(d, raw);
      ScanFits(DecodeByte(d, raw[0]), raw[1..], blen);
    }
  }

  /** How many bytes of the output buffer the decode loop writes: the check comes before the
      store, so it may be one more than blen. */
  function ScanReach(d: Decoder, raw: seq<Byte>, blen: nat): nat
    decreases |raw|
  {
    if raw == [] || |d.out| > blen then |d.out| else ScanReach(DecodeByte(d, raw[0]), raw[1..], blen)
  }

  /** It is never more than that, and it is that exactly for a packet longer than blen. */
  lemma {:induction false} ReachBound(d: Decoder, raw: seq<Byte>, blen: nat)
    requires |d.out| <= blen + 1
    ensures |d.out| <= ScanReach(d, raw, blen) <= blen + 1 && |Scan(d, raw, blen).out| <= blen + 1
    ensures ScanReach(d, raw, blen) == blen + 1 <==> |Decode(d, raw).out| > blen
    decreases |raw|
  {
    if raw != [] {
      assert raw == [raw[0]] + raw[1..];
      DecodeAppend(d, [raw[0]], raw[1..]);
      DecodeOne(d, raw[0]);
      DecodeGrows(d, raw);
      if |d.out| <= blen { ReachBound(DecodeByte(d, raw[0]), raw[1..], blen); }
    }
  }

  /** The last byte alone may take it past blen. */
  lemma {:induction false} ScanLast(d: Decoder, raw: seq<Byte>, b: Byte, blen: nat)
    requires |Decode(d, raw).out| <= blen
    ensures Scan(d, raw + [b], blen) == Decode(d, raw + [b])
    decreases |raw|
  {
    var all := raw + [b];
    if raw == [] {
      assert all == [b] && all[1..] == [];
      DecodeOne(d, b);
    } else {
      assert raw == [raw[0]] + raw[1..] && all[1..] == raw[1..] + [b] && all == [raw[0]] + all[1..];
      DecodeAppend(d, [raw[0]], raw[1..]);
      DecodeAppend(d, [raw[0]], all[1..]);
      DecodeOne(d, raw[0]);
      DecodeGrows(d, raw);
      ScanLast(DecodeByte(d, raw[0]), raw[1..], b, blen);
    }
  }

  /** The decode loop gives up on raw: more than blen bytes are put out before its last byte. */
  predicate GivesUp(d: Decoder, raw: seq<Byte>, blen: nat) {
    raw != [] && |Decode(d, raw[..|raw| - 1]).out| > blen
  }

  /** Giving up happens right after a byte was put out, so no ESC is pending. */
  lemma {:induction false} ScanGivesUp(d: Decoder, raw: seq<Byte>, blen: nat)
    requires |d.out| <= blen && GivesUp(d, raw, blen)
    ensures Scan(d, raw, blen) == Decoder([], false)
    decreases |raw|
  {
    var n := |raw| - 1;
    assert n > 0;
    var d1, rest := DecodeByte(d, raw[0]), raw[1..];
    assert raw[..n] == [raw[0]] + rest[..n - 1];
    DecodeAppend(d, [raw[0]], rest[..n - 1]);
    DecodeOne(d, raw[0]);
    if |d1.out| <= blen { ScanGivesUp(d1, rest, blen); }
  }

  /** Otherwise the length check has no effect. */
  lemma ScanKeepsUp(d: Decoder, raw: seq<Byte>, blen: nat)
    requires !GivesUp(d, raw, blen)
    ensures Scan(d, raw, blen) == Decode(d, raw)
  {
    if raw != [] {
      var n := |raw| - 1;
      assert raw[..n] + [raw[n]] == raw;
      ScanLast(d, raw[..n], raw[n], blen);
    }
  }

  lemma ScanOut(d: Decoder, raw: seq<Byte>, blen: nat)
    ensures Scan(d, raw, blen).out == if GivesUp(d, raw, blen) then [] else Decode(d, raw).out
  {
    if !GivesUp(d, raw, blen) {
      ScanKeepsUp(d, raw, blen);
    } else if |d.out| <= blen {
      ScanGivesUp(d, raw, blen);
    }
  }

  /** Two loops in a row.  When the first one gives up, the second one decodes its part as if
      it were a packet. */
  lemma TwoScans(a: seq<Byte>, b: seq<Byte>, blen: nat)
    ensures Scan(Scan(START, a, blen), b, blen).out ==
            if GivesUp(START, a, blen) then (if GivesUp(START, b, blen) then [] else Decode(START, b).out)
            else if GivesUp(START, a + b, blen) then [] else Decode(START, a + b).out
  {
    if GivesUp(START, a, blen) {
      ScanGivesUp(START, a, blen);
      ScanOut(START, b, blen);
    } else {
      ScanKeepsUp(START, a, blen);
      ScanOut(Decode(START, a), b, blen);
      DecodeAppend(START, a, b);
      if b == [] {
        assert a + b == a;
      } else {
        assert (a + b)[..|a + b| - 1] == a + b[..|b| - 1];
        DecodeAppend(START, a, b[..|b| - 1]);
      }
    }
  }
}
