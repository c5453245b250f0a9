/** Lines of bytes, and what the producer of contiki-ng/os/dev/serial-line.c lets through:
    input bytes go into the ring until it overflows, then everything up to a line end is
    dropped. */
module SerialLines {
  import opened Bits

  const END: Byte := 0x0a
  const CR: Byte := 0x0d

  // ----- lines of a byte stream -----

  datatype Lines = Lines(done: seq<seq<Byte>>, part: seq<Byte>)

  /** The finished lines of a stream and the line it is in. */
  function Split(s: seq<Byte>): Lines {
    if s == [] then Lines([], []) else Feed(Split(s[..|s| - 1]), s[|s| - 1])
  }

  function Feed(l: Lines, c: Byte): Lines {
    if c == END then Lines(l.done + [l.part], []) else Lines(l.done, l.part + [c])
  }

  lemma SplitAppend(s: seq<Byte>, c: Byte)
    ensures Split(s + [c]) == Feed(Split(s), c)
  {
    assert (s + [c])[..|s|] == s;
  }

  /** Byte 10 ends a line, whatever it is; every other byte extends it; byte 13 is the one
      that is ignored. */
  lemma LineBytes(s: seq<Byte>, c: Byte)
    ensures CR == 13
    ensures Split(s + [c]) == if c == 10 then Lines(Split(s).done + [Split(s).part], []) else Lines(Split(s).done, Split(s).part + [c])
  {
    SplitAppend(s, c);
  }

  /** Finished lines stay finished as a stream grows. */
  lemma {:induction false} SplitPrefix(s: seq<Byte>, t: seq<Byte>)
    requires s <= t
    ensures Split(s).done <= Split(t).done
    decreases |t|
  {
    if s == t {
    } else {
      var u := t[..|t| - 1];
      assert s <= u;
      SplitPrefix(s, u);
    }
  }

  function Cut(line: seq<Byte>, n: nat): seq<Byte> {
    if |line| <= n then line else line[..n]
  }

  /** Line number i of a stream, finished or not. */
  ghost function LineAt(l: Lines, i: nat): seq<Byte> {
    if i < |l.done| then l.done[i] else l.part
  }

  // ----- what the producer has let through -----

  /** The lines `acc` let through and the lines `input` received: every finished line that
      was let through is the beginning of input line ids[i], the ids rise strictly, and
      the unfinished one is the beginning of input line cur: of the line being received
      unless an overflow is pending. */
  ghost predicate Faithful(input: Lines, acc: Lines, overflow: bool, ids: seq<nat>, cur: nat) {
    && |ids| == |acc.done|
    && (forall i {:trigger ids[i]} ::
          0 <= i < |ids| ==> ids[i] < |input.done| && acc.done[i] <= input.done[ids[i]])
    && (forall i, j :: 0 <= i < j < |ids| ==> ids[i] < ids[j])
    && (forall i :: 0 <= i < |ids| ==> ids[i] < cur)
    && cur <= |input.done| && acc.part <= LineAt(input, cur)
    && (!overflow ==> cur == |input.done| && acc.part == input.part)
  }

  /** A byte arrives and is let through. */
  lemma LetThrough(input: Lines, acc: Lines, overflow: bool, ids: seq<nat>, cur: nat, c: Byte)
    requires Faithful(input, acc, overflow, ids, cur) && (overflow ==> c == END)
    ensures c != END ==> Faithful(Feed(input, c), Feed(acc, c), false, ids, cur)
    ensures c == END ==> Faithful(Feed(input, c), Feed(acc, c), false, ids + [cur], |input.done| + 1)
  {}

  /** A byte arrives and is dropped. */
  lemma Dropped(input: Lines, acc: Lines, overflow: bool, ids: seq<nat>, cur: nat, c: Byte)
    requires Faithful(input, acc, overflow, ids, cur)
    ensures Faithful(Feed(input, c), acc, true, ids, cur)
  {}

  /** What a driver has received so far, without CR; which input lines the lines it let
      through were, and which one it is in; whether anything was dropped. */
  datatype Log = Log(input: seq<Byte>, ids: seq<nat>, cur: nat, lost: bool)

  /** The logs that explain the bytes `acc` put into the ring. */
  ghost function Logs(acc: seq<Byte>, overflow: bool): iset<Log> {
    iset g: Log |
      && Faithful(Split(g.input), Split(acc), overflow, g.ids, g.cur)
      && (overflow ==> g.lost) && (!g.lost ==> acc == g.input)
  }

  /** The log after a byte arrived and was let through or not. */
  function Logged(g: Log, c: Byte, ok: bool): Log {
    var g' := Log(g.input + [c], g.ids, g.cur, g.lost || !ok);
    if ok && c == END then g'.(ids := g.ids + [g.cur], cur := |Split(g.input).done| + 1) else g'
  }

  lemma Received(g: Log, acc: seq<Byte>, overflow: bool, c: Byte, ok: bool)
    requires g in Logs(acc, overflow) && (ok && overflow ==> c == END)
    ensures Logged(g, c, ok) in Logs(if ok then acc + [c] else acc, !ok)
  {
    SplitAppend(g.input, c);
    SplitAppend(acc, c);
    if ok {
      LetThrough(Split(g.input), Split(acc), overflow, g.ids, g.cur, c);
    } else {
      Dropped(Split(g.input), Split(acc), overflow, g.ids, g.cur, c);
    }
  }

  // ----- what the consumer has delivered -----

  /** Lines cut to n bytes, and the part of a line that is in the buffer. */
  datatype Output = Output(lines: seq<seq<Byte>>, part: seq<Byte>)

  function Delivered(stream: seq<Byte>, n: nat): Output {
    Output(CutAll(Split(stream).done, n), Cut(Split(stream).part, n))
  }

  function CutAll(lines: seq<seq<Byte>>, n: nat): (r: seq<seq<Byte>>)
    ensures |r| == |lines|
  {
    if lines == [] then [] else CutAll(lines[..|lines| - 1], n) + [Cut(lines[|lines| - 1], n)]
  }

  lemma {:induction false} CutAllAt(lines: seq<seq<Byte>>, n: nat, i: nat)
    requires i < |lines|
    ensures CutAll(lines, n)[i] == Cut(lines[i], n)
  {
    if i < |lines| - 1 { CutAllAt(lines[..|lines| - 1], n, i); }
  }

  /** How one more byte changes what was delivered. */
  lemma DeliveredAppend(stream: seq<Byte>, c: Byte, n: nat)
    ensures var o, o' := Delivered(stream, n), Delivered(stream + [c], n);
            if c == END then o' == Output(o.lines + [o.part], [])
            else o' == Output(o.lines, if |o.part| < n then o.part + [c] else o.part)
  {
    SplitAppend(stream, c);
    var l := Split(stream);
    assert (l.done + [l.part])[..|l.done|] == l.done;
  }
}
