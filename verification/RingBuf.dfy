/** The single-producer single-consumer ring buffer of contiki-ng/os/lib/ringbuf.c, at the
    granularity of its memory accesses.  A put reads get_ptr, writes the slot, then
    publishes put_ptr; a get reads put_ptr, reads the slot, then advances get_ptr.  An
    interrupt may run either side between any two of these steps. */
module RingBuf {
  import opened Arith
  import opened Bits

  /** Where a call of ringbuf_put stands. */
  datatype Producer = PutIdle | PutChecked(c: Byte) | PutWritten(c: Byte)

  /** Where a call of ringbuf_get stands. */
  datatype Consumer = GetIdle | GetChecked | GetRead(c: Byte)

  /** `accepted` and `returned` record what the calls have taken in and handed out. */
  datatype State = State(data: seq<Byte>, mask: nat, put: int, get: int,
                         producer: Producer, consumer: Consumer,
                         accepted: seq<Byte>, returned: seq<Byte>)
  {
    function Elements(): int { And(put - get, mask) }
  }

  datatype Step = PutCheck(c: Byte) | PutWrite | PutPublish | GetCheck | GetLoad | GetAdvance

  /** Each side runs its calls one after the other. */
  predicate Enabled(s: State, a: Step) {
    match a
    case PutCheck(_) => s.producer == PutIdle
    case PutWrite => s.producer.PutChecked? && 0 <= s.put < |s.data|
    case PutPublish => s.producer.PutWritten?
    case GetCheck => s.consumer == GetIdle
    case GetLoad => s.consumer == GetChecked && 0 <= s.get < |s.data|
    case GetAdvance => s.consumer.GetRead?
  }

  function Next(s: State, a: Step): State
    requires Enabled(s, a)
  {
    match a
    case PutCheck(c) => if s.Elements() == s.mask then s else s.(producer := PutChecked(c))
    case PutWrite => s.(data := s.data[s.put := s.producer.c], producer := PutWritten(s.producer.c))
    case PutPublish =>
      s.(put := And(s.put + 1, s.mask), producer := PutIdle, accepted := s.accepted + [s.producer.c])
    case GetCheck => if s.Elements() > 0 then s.(consumer := GetChecked) else s
    case GetLoad => s.(consumer := GetRead(s.data[s.get]))
    case GetAdvance =>
      s.(get := And(s.get + 1, s.mask), consumer := GetIdle, returned := s.returned + [s.consumer.c])
  }

  /** ringbuf_init with a buffer of 2^k bytes. */
  ghost predicate Initial(s: State, k: nat) {
    && |s.data| == Pow2(k) && s.mask == Pow2(k) - 1 && s.put == s.get == 0
    && s.producer == PutIdle && s.consumer == GetIdle && s.accepted == s.returned == []
  }

  ghost predicate Run(s: State, steps: seq<Step>, s': State)
    decreases |steps|
  {
    if steps == [] then s == s'
    else Enabled(s, steps[0]) && Run(Next(s, steps[0]), steps[1..], s')
  }

  /** Byte i of the accepted stream sits in slot i mod size. */
  ghost predicate Holds(s: State, size: nat, i: int) {
    size > 0 && |s.data| == size && 0 <= i < |s.accepted| && s.data[i % size] == s.accepted[i]
  }

  ghost predicate Inv(s: State, k: nat) {
    var size, p, g := Pow2(k), |s.accepted|, |s.returned|;
    && |s.data| == size && s.mask == size - 1
    && s.put == p % size && s.get == g % size
    && g <= p < g + size
    && (s.producer != PutIdle ==> p + 1 < g + size)
    && (s.producer.PutWritten? ==> s.data[s.put] == s.producer.c)
    && (s.consumer != GetIdle ==> g < p)
    && (s.consumer.GetRead? ==> s.consumer.c == s.accepted[g])
    && (forall i {:trigger Holds(s, size, i)} :: g <= i < p ==> Holds(s, size, i))
    && s.returned == s.accepted[..g]
  }

  /** The states a ring of 2^k bytes can be in. */
  ghost function States(k: nat): iset<State> {
    iset s: State | Inv(s, k)
  }

  /** The pointer difference is the number of bytes in the buffer. */
  lemma ElementsCount(s: State, k: nat)
    requires Inv(s, k)
    ensures s.Elements() == |s.accepted| - |s.returned|
  {
    AndMask(s.put - s.get, k);
    ModDifference(|s.accepted|, |s.returned|, Pow2(k));
  }

  lemma Advance(x: nat, k: nat)
    ensures And(x % Pow2(k) + 1, Pow2(k) - 1) == (x + 1) % Pow2(k)
  {
    AndMask(x % Pow2(k) + 1, k);
    ModOfSum(x, 1, Pow2(k));
  }

  /** The slot a put is about to write holds no unread byte. */
  lemma WritesFreeSlot(s: State, k: nat)
    requires Inv(s, k) && s.producer != PutIdle
    ensures forall i :: |s.returned| <= i < |s.accepted| ==> i % Pow2(k) != s.put
  {
    forall i | |s.returned| <= i < |s.accepted| ensures i % Pow2(k) != s.put {
      if i % Pow2(k) == s.put { ModInjective(|s.accepted|, i, Pow2(k)); }
    }
  }

  lemma StepInv(s: State, a: Step, k: nat)
    requires Inv(s, k) && Enabled(s, a)
    ensures Inv(Next(s, a), k)
  {
    var s', size, p, g := Next(s, a), Pow2(k), |s.accepted|, |s.returned|;
    ElementsCount(s, k);
    match a {
      case PutWrite =>
        WritesFreeSlot(s, k);
        forall i | g <= i < p ensures Holds(s', size, i) { assert Holds(s, size, i); }
      case PutPublish =>
        Advance(p, k);
        forall i | g <= i < p + 1 ensures Holds(s', size, i) {
          if i < p { assert Holds(s, size, i); }
        }
      case GetLoad =>
        assert Holds(s, size, g);
        forall i | g <= i < p ensures Holds(s', size, i) { assert Holds(s, size, i); }
      case GetAdvance =>
        Advance(g, k);
        forall i | g + 1 <= i < p ensures Holds(s', size, i) { assert Holds(s, size, i); }
      case _ =>
        forall i | g <= i < p ensures Holds(s', size, i) { assert Holds(s, size, i); }
    }
  }

  lemma {:induction false} RunInv(s: State, steps: seq<Step>, s': State, k: nat)
    requires Inv(s, k) && Run(s, steps, s')
    ensures Inv(s', k)
    decreases |steps|
  {
    if steps != [] {
      StepInv(s, steps[0], k);
      RunInv(Next(s, steps[0]), steps[1..], s', k);
    }
  }

  /** In every interleaving of the two sides, for every power-of-two size: the bytes handed
      out are a prefix, in order, of the bytes taken in; at most size - 1 bytes are held;
      no unread slot is about to be overwritten; the steps stay inside the buffer. */
  lemma InterleavingSafe(s0: State, steps: seq<Step>, s: State, k: nat)
    requires Initial(s0, k) && Run(s0, steps, s)
    ensures s.returned <= s.accepted && |s.accepted| - |s.returned| <= Pow2(k) - 1
    ensures s.producer != PutIdle ==>
              forall i :: |s.returned| <= i < |s.accepted| ==> i % Pow2(k) != s.put
    ensures 0 <= s.put < |s.data| && 0 <= s.get < |s.data|
  {
    ModSmall(0, Pow2(k));
    RunInv(s0, steps, s, k);
    if s.producer != PutIdle { WritesFreeSlot(s, k); }
  }

  lemma HeldExactly(s: State, k: nat)
    requires s in States(k)
    ensures s.Elements() > 0 <==> s.returned != s.accepted
  {
    ElementsCount(s, k);
    assert |s.returned| == |s.accepted| ==> s.accepted[..|s.returned|] == s.accepted;
  }

  /** In every reachable state: a get goes on exactly when a byte is held, a put exactly when
      less than size - 1 bytes are, and a call that does not go on changes nothing. */
  lemma ChecksExactly(s0: State, steps: seq<Step>, s: State, k: nat, c: Byte)
    requires Initial(s0, k) && Run(s0, steps, s)
    ensures s.consumer == GetIdle ==>
              Next(s, GetCheck) == if s.returned != s.accepted then s.(consumer := GetChecked) else s
    ensures s.producer == PutIdle ==>
              Next(s, PutCheck(c)) == if |s.accepted| - |s.returned| < Pow2(k) - 1 then s.(producer := PutChecked(c)) else s
  {
    ModSmall(0, Pow2(k));
    RunInv(s0, steps, s, k);
    HeldExactly(s, k);
    ElementsCount(s, k);
  }

  predicate IsGet(a: Step) { a.GetCheck? || a.GetLoad? || a.GetAdvance? }

  /** From every reachable state the consumer alone hands out all that was accepted. */
  lemma {:induction false} Drains(s: State, k: nat) returns (steps: seq<Step>, s': State)
    requires s in States(k)
    ensures Run(s, steps, s') && forall i :: 0 <= i < |steps| ==> IsGet(steps[i])
    ensures s'.accepted == s'.returned == s.accepted && s' in States(k)
    decreases 4 * (|s.accepted| - |s.returned|) + (match s.consumer case GetIdle => 2 case GetChecked => 1 case GetRead(_) => 0)
  {
    HeldExactly(s, k);
    if s.consumer == GetIdle && s.returned == s.accepted {
      steps, s' := [], s;
    } else {
      var a := match s.consumer case GetIdle => GetCheck case GetChecked => GetLoad case GetRead(_) => GetAdvance;
      ModBound(|s.returned|, Pow2(k));
      StepInv(s, a, k);
      var rest;
      rest, s' := Drains(Next(s, a), k);
      steps := [a] + rest;
    }
  }

  /** A put that is not interrupted, as a run. */
  lemma PutRun(s: State, c: Byte, k: nat) returns (s': State)
    requires s in States(k) && s.producer == PutIdle && |s.accepted| - |s.returned| < Pow2(k) - 1
    ensures 0 <= s.put < |s.data| && s' in States(k) && Run(s, [PutCheck(c), PutWrite, PutPublish], s')
    ensures s' == s.(data := s.data[s.put := c], put := And(s.put + 1, s.mask), accepted := s.accepted + [c])
  {
    ElementsCount(s, k);
    ModBound(|s.accepted|, Pow2(k));
    StepInv(s, PutCheck(c), k);
    var s1 := Next(s, PutCheck(c));
    StepInv(s1, PutWrite, k);
    var s2 := Next(s1, PutWrite);
    StepInv(s2, PutPublish, k);
    s' := Next(s2, PutPublish);
    assert Run(s2, [PutPublish], s') && Run(s1, [PutWrite, PutPublish], s');
  }

  /** A get that is not interrupted, as a run. */
  lemma GetRun(s: State, k: nat) returns (s': State)
    requires s in States(k) && s.consumer == GetIdle && s.returned != s.accepted
    ensures 0 <= s.get < |s.data| && |s.returned| < |s.accepted| && s.data[s.get] == s.accepted[|s.returned|]
    ensures s' in States(k) && Run(s, [GetCheck, GetLoad, GetAdvance], s')
    ensures s' == s.(get := And(s.get + 1, s.mask), returned := s.returned + [s.data[s.get]])
  {
    HeldExactly(s, k);
    StepInv(s, GetCheck, k);
    var s1 := Next(s, GetCheck);
    ModBound(|s.returned|, Pow2(k));
    StepInv(s1, GetLoad, k);
    var s2 := Next(s1, GetLoad);
    StepInv(s2, GetAdvance, k);
    s' := Next(s2, GetAdvance);
    assert Run(s2, [GetAdvance], s') && Run(s1, [GetLoad, GetAdvance], s');
  }

  lemma RefusedRun(s: State, a: Step)
    requires Enabled(s, a) && Next(s, a) == s
    ensures Run(s, [a], s)
  {
    assert Run(s, [], s);
  }

  /** The buffer as an object whose calls are not interrupted. */
  class Ring {
    const k: nat
    const data: array<Byte>
    const mask: nat
    var putPtr: int
    var getPtr: int
    ghost var accepted: seq<Byte>
    ghost var returned: seq<Byte>

    ghost function View(): State
      reads this, data
    {
      State(data[..], mask, putPtr, getPtr, PutIdle, GetIdle, accepted, returned)
    }

    ghost predicate Valid()
      reads this, data
    {
      View() in States(k)
    }

    /** ringbuf_init. */
    constructor (k: nat)
      ensures Valid() && fresh(data) && accepted == returned == [] && this.k == k
    {
      this.k := k;
      data := new Byte[Pow2(k)];
      mask := Pow2(k) - 1;
      putPtr, getPtr := 0, 0;
      accepted, returned := [], [];
      ModSmall(0, Pow2(k));
    }

    /** ringbuf_put: the three producer steps in a row; refused exactly when size - 1 bytes
        are held. */
    method Put(c: Byte) returns (ok: bool)
      requires Valid()
      modifies this`putPtr, this`accepted, data
      ensures Valid()
      ensures ok <==> |old(accepted)| - |returned| < Pow2(k) - 1
      ensures accepted == if ok then old(accepted) + [c] else old(accepted)
      ensures Run(old(View()), if ok then [PutCheck(c), PutWrite, PutPublish] else [PutCheck(c)], View())
    {
      ghost var s := View();
      ElementsCount(s, k);
      if And(putPtr - getPtr, mask) == mask {
        RefusedRun(s, PutCheck(c));
        return false;
      }
      ghost var s' := PutRun(s, c, k);
      data[putPtr] := c;
      putPtr := And(putPtr + 1, mask);
      accepted := accepted + [c];
      assert View() == s';
      ok := true;
    }

    /** ringbuf_get: the oldest byte, or -1 exactly when none is held. */
    method Get() returns (c: int)
      requires Valid()
      modifies this`getPtr, this`returned
      ensures Valid()
      ensures old(returned) == accepted ==> c == -1 && returned == old(returned)
      ensures old(returned) != accepted ==>
                && |old(returned)| < |accepted| && c == accepted[|old(returned)|]
                && returned == old(returned) + [c]
      ensures Run(old(View()), if c == -1 then [GetCheck] else [GetCheck, GetLoad, GetAdvance], View())
    {
      HeldExactly(View(), k);
      if And(putPtr - getPtr, mask) > 0 {
        ghost var s' := GetRun(View(), k);
        c := data[getPtr];
        getPtr := And(getPtr + 1, mask);
        returned := returned + [c];
        assert View() == s';
      } else {
        c := -1;
        RefusedRun(View(), GetCheck);
      }
    }
  }

  lemma ModBound(x: nat, w: nat)
    requires w > 0
    ensures 0 <= x % w < w
  {}
}
