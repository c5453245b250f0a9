/** The bound on Imin << Imax in contiki-ng/os/lib/trickle-timer.c and trickle-timer.h, for
    a clock of w bits. */
module TrickleConfig {
  import opened Arith
  import opened Bits

  /** e is the largest exponent with imin << e at most half the clock range. */
  predicate Largest(imin: int, e: int, w: nat)
    requires w >= 1
  {
    e >= 0 && imin * Pow2(e) <= Pow2(w - 1) < imin * Pow2(e + 1)
  }

  // ----- masks of consecutive bits -----

  lemma Pow2Monotone(a: nat, b: nat)
    requires a <= b
    ensures Pow2(a) <= Pow2(b)
  {
    Pow2Adds(a, b - a);
    MulAtLeast(Pow2(a), Pow2(b - a));
  }

  /** Bits a to b - 1 of v are clear. */
  predicate Clear(v: nat, a: nat, b: nat)
    requires a <= b
    decreases a
  {
    if a == 0 then LowBits(v, b) == 0 else Clear(v / 2, a - 1, b - 1)
  }

  lemma {:induction false} AndRange(v: nat, a: nat, b: nat)
    requires a <= b
    ensures Pow2(a) <= Pow2(b)
    ensures And(v, Pow2(b) - Pow2(a)) == 0 <==> Clear(v, a, b)
    decreases a
  {
    Pow2Monotone(a, b);
    if a == 0 {
      AndLowBits(v, b);
    } else {
      AndRange(v / 2, a - 1, b - 1);
      AndEven(v, Pow2(b) - Pow2(a), Pow2(b - 1) - Pow2(a - 1));
    }
  }

  lemma AndEven(v: nat, m: int, h: int)
    requires m == 2 * h && h >= 0
    ensures And(v, m) == 0 <==> And(v / 2, h) == 0
  {
    AndDouble(v, h);
  }

  lemma AndDouble(v: nat, m: nat)
    ensures And(v, 2 * m) == 2 * And(v / 2, m)
  {
    if m > 0 { assert (2 * m) % 2 == 0 && (2 * m) / 2 == m; }
  }

  /** A value below 2^a has no higher bits; with bits a to b - 1 clear, any other is at least 2^b. */
  lemma {:induction false} ClearBounds(v: nat, a: nat, b: nat)
    requires a <= b
    ensures v < Pow2(a) ==> Clear(v, a, b)
    ensures v >= Pow2(a) && Clear(v, a, b) ==> v >= Pow2(b)
    decreases a
  {
    if a > 0 { ClearBounds(v / 2, a - 1, b - 1); } else { LowBitsMod(v, b); SmallMultiple(v, Pow2(b)); }
  }

  lemma SmallMultiple(v: nat, p: nat)
    requires p >= 1
    ensures v == 0 ==> v % p == 0
    ensures v > 0 && v % p == 0 ==> v >= p
  {
    if v < p { ModSmall(v, p); }
  }

  /** Of a w-bit value, the top bits are clear exactly when it is small. */
  lemma AndTop(v: nat, i: nat, w: nat)
    requires i <= w && v < Pow2(w)
    ensures Pow2(w - i) <= Pow2(w)
    ensures And(v, Pow2(w) - Pow2(w - i)) == 0 <==> v < Pow2(w - i)
  {
    AndRange(v, w - i, w);
    ClearBounds(v, w - i, w);
  }

  // ----- max_imax -----

  /** x << i in a w-bit clock value, bit by bit. */
  function Shl(x: nat, i: nat, w: nat): nat
    decreases i
  {
    if i == 0 then x % Pow2(w) else (2 * Shl(x, i - 1, w)) % Pow2(w)
  }

  lemma {:induction false} ShlMod(x: nat, i: nat, w: nat)
    ensures Shl(x, i, w) == (x * Pow2(i)) % Pow2(w)
    decreases i
  {
    if i > 0 {
      ShlMod(x, i - 1, w);
      DoubleMod(x * Pow2(i - 1), Pow2(w));
      assert 2 * (x * Pow2(i - 1)) == x * Pow2(i);
    }
  }

  lemma DoubleMod(y: nat, m: nat)
    requires m >= 1
    ensures (2 * (y % m)) % m == (2 * y) % m
  {
    var q := y / m;
    assert y == m * q + y % m;
    assert m * (2 * q) == 2 * (m * q);
    ModShift(2 * (y % m), 2 * q, m);
  }

  predicate Width(w: nat) { w == 16 || w == 32 || w == 64 }

  /** A shift count that halves evenly down to 1. */
  predicate Count(i: nat) {
    i == 0 || i == 1 || (i % 2 == 0 && Count(i / 2))
  }

  /** Where the first test of the loop looks at the right bits: always for 16 and 32 bits;
      for 64 bits it sees only bits 32 to 47 of Imin - 1. */
  predicate Regular(imin: int, w: nat)
    requires imin >= 1
  {
    w < 64 || imin - 1 < Pow2(w / 2) || !Clear(imin - 1, w / 2, w / 2 + w / 4)
  }

  /** Bits a to b - 1. */
  function Mask(a: nat, b: nat): int { Pow2(b) - Pow2(a) }

  lemma MaskNonNegative(a: nat, b: nat)
    requires a <= b
    ensures Mask(a, b) >= 0
  {
    Pow2Monotone(a, b);
  }

  lemma Scaled(a: nat, b: nat, i: nat)
    ensures Mask(a, b) * Pow2(i) == Mask(a + i, b + i)
  {
    Pow2Adds(b, i);
    Pow2Adds(a, i);
    Distribute(Pow2(b), Pow2(a), Pow2(i));
  }

  lemma Distribute(x: int, y: int, p: int)
    ensures (x - y) * p == x * p - y * p
  {}

  lemma ShiftInside(a: nat, b: nat, i: nat, w: nat)
    requires a <= b && b + i <= w
    ensures Mask(a, b) >= 0 && Shl(Mask(a, b), i, w) == Mask(a + i, b + i)
  {
    MaskNonNegative(a, b);
    MaskNonNegative(a + i, b + i);
    ShlMod(Mask(a, b), i, w);
    Scaled(a, b, i);
    Pow2Monotone(b + i, w);
    ModSmall(Mask(a + i, b + i), Pow2(w));
  }

  /** Bits shifted out of the clock value are lost. */
  lemma ShiftOut(a: nat, i: nat, w: nat)
    requires a + i < w
    ensures Mask(a, w) >= 0 && Shl(Mask(a, w), i, w) == Mask(a + i, w)
  {
    MaskNonNegative(a, w);
    MaskNonNegative(a + i, w);
    ShlMod(Mask(a, w), i, w);
    Scaled(a, w, i);
    Pow2Adds(w, i);
    Wrapped(Pow2(w), Pow2(i), Pow2(a + i));
  }

  lemma Wrapped(p: int, q: int, r: int)
    requires p >= 1 && 1 <= r <= p
    ensures (p * q - r) % p == p - r
  {
    Distribute(q, 1, p);
    UniqueRemainder(p * q - r, q - 1, p - r, p);
  }

  /** The mask covers bits a to b - 1 before it is shifted by i. */
  predicate Before(a: int, b: int, i: nat, w: nat) {
    if 2 * i == w then a == 0 && b == 16
    else if i == 16 then a == 32 && b == 48
    else a == w - 2 * i && b == w
  }

  /** The mask covers bits a to b - 1 after it was shifted by i. */
  predicate After(a: int, b: int, i: nat, w: nat) {
    if i == 32 then a == 32 && b == 48 else a == w - i && b == w
  }

  lemma MaskShifted(a: nat, b: nat, i: nat, w: nat)
    requires Width(w) && Before(a, b, i, w) && i >= 1 && 2 * i <= w && Count(i)
    ensures var b' := if b + i <= w then b + i else w;
            && Mask(a, b) >= 0 && Shl(Mask(a, b), i, w) == Mask(a + i, b') && Mask(a + i, b') >= 0
            && After(a + i, b', i, w) && (i > 1 ==> Before(a + i, b', i / 2, w))
  {
    if b + i <= w {
      ShiftInside(a, b, i, w);
      MaskNonNegative(a + i, b + i);
    } else {
      ShiftOut(a, i, w);
      MaskNonNegative(a + i, w);
    }
  }

  /** The bits still to be tested before the shift by i. */
  function Rest(i: nat): nat { if i == 0 then 1 else 2 * i }

  /** Shifting Imin - 1 left by `zeros` loses no bit and its first 1 is in the top bits. */
  predicate Normal(v: nat, value: nat, zeros: nat, i: nat, w: nat) {
    && zeros + Rest(i) <= w && value == v * Pow2(zeros)
    && Pow2(w - Rest(i)) <= value < Pow2(w)
  }

  lemma Narrow(v: nat, value: nat, zeros: nat, i: nat, w: nat)
    requires i >= 1 && Rest(i / 2) == i && Normal(v, value, zeros, i, w)
    ensures value < Pow2(w - i) ==> Normal(v, Shl(value, i, w), zeros + i, i / 2, w)
    ensures value >= Pow2(w - i) ==> Normal(v, value, zeros, i / 2, w)
  {
    if value < Pow2(w - i) {
      Pow2Adds(w - i, i);
      Pow2Adds(w - 2 * i, i);
      Pow2Adds(zeros, i);
      ShlMod(value, i, w);
      Lifted(v, Pow2(zeros), Pow2(i), Pow2(w - 2 * i), Pow2(w - i));
    }
  }

  lemma Lifted(v: nat, z: nat, p: nat, low: nat, high: nat)
    requires p >= 1 && low <= v * z < high
    ensures high * p > 0 && ((v * z) * p) % (high * p) == v * (z * p)
    ensures low * p <= v * (z * p) < high * p
  {
    var x := v * z;
    assert x * p == v * (z * p);
    Distribute(x, low, p);
    Distribute(high, x, p);
    MulAtLeast(p, high - x);
    Ordered(low, x, p);
    assert 0 <= x * p < high * p;
    ModSmall(x * p, high * p);
  }

  lemma Ordered(x: nat, y: nat, p: nat)
    requires x <= y
    ensures x * p <= y * p
  {}

  /** A round that tests the i top bits. */
  lemma RoundTop(v: nat, value: nat, zeros: nat, i: nat, w: nat)
    requires i >= 1 && Rest(i / 2) == i && Normal(v, value, zeros, i, w)
    ensures Mask(w - i, w) >= 0
    ensures if And(value, Mask(w - i, w)) == 0 then Normal(v, Shl(value, i, w), zeros + i, i / 2, w)
            else Normal(v, value, zeros, i / 2, w)
  {
    AndTop(value, i, w);
    Narrow(v, value, zeros, i, w);
  }

  /** The first round of a 64-bit clock, which tests only the lower half of the top bits. */
  lemma RoundFirst(v: nat, i: nat, w: nat)
    requires w == 2 * i && w >= 64 && Rest(i / 2) == i && Normal(v, v, 0, i, w)
    ensures Mask(i, i + w / 4) >= 0
    ensures Regular(v + 1, w) && And(v, Mask(i, i + w / 4)) == 0 ==> Normal(v, Shl(v, i, w), i, i / 2, w)
    ensures Regular(v + 1, w) && And(v, Mask(i, i + w / 4)) != 0 ==> Normal(v, v, 0, i / 2, w)
    ensures !Regular(v + 1, w) ==> And(v, Mask(i, i + w / 4)) == 0
  {
    AndRange(v, i, i + w / 4);
    Narrow(v, v, 0, i, w);
    ClearBounds(v, i, i + w / 4);
  }

  /** p = 2^(w - zeros), h = 2^(zeros - 1) and half = 2^(w - 1). */
  lemma LargestValues(imin: nat, p: nat, h: nat, half: nat)
    requires imin >= 1 && h >= 1 && p * (2 * h) == 2 * half && half <= (imin - 1) * (2 * h) < 2 * half
    ensures imin * h <= half < imin * (2 * h)
  {
    var q := 2 * h;
    Distribute(imin, 1, q);
    if imin > p { Ordered(p, imin - 1, q); assert false; }
    Ordered(imin, p, h);
    assert 2 * (p * h) == p * q;
  }

  lemma LargestFound(imin: nat, zeros: nat, w: nat)
    requires w >= 2 && 2 <= imin < Pow2(w - 1) && zeros <= w - 1
    requires Normal(imin - 1, (imin - 1) * Pow2(zeros), zeros, 0, w)
    ensures zeros >= 1 && Largest(imin, zeros - 1, w)
  {
    if zeros > 0 {
      Pow2Adds(w - zeros, zeros);
      LargestValues(imin, Pow2(w - zeros), Pow2(zeros - 1), Pow2(w - 1));
    }
  }

  lemma TooManyValues(imin: nat, p: nat, r: nat, q: nat)
    requires imin > p && 1 <= r <= q
    ensures imin * q > p * r
  {
    Ordered(p + 1, imin, q);
    MulNext(q, p);
    assert q * p == p * q && (p + 1) * q == q * (p + 1);
    Ordered(r, q, p);
    assert r * p == p * r;
  }

  /** w / 2 - 1 doublings of an Imin beyond 2^(w / 2) exceed half the clock range. */
  lemma TooMany(imin: nat, e: int, w: nat)
    requires w >= 2 && w % 2 == 0 && e >= w / 2 - 1 && imin > Pow2(w / 2)
    ensures !Largest(imin, e, w)
  {
    Pow2Adds(w / 2, w / 2 - 1);
    Pow2Monotone(w / 2 - 1, e);
    TooManyValues(imin, Pow2(w / 2), Pow2(w / 2 - 1), Pow2(e));
  }

  /** The values of the loop variables (value, zeros, i) before each round. */
  ghost function States(imin: nat, w: nat): iset<(nat, nat, nat)>
    requires imin >= 1
  {
    iset s: (nat, nat, nat) |
      && Count(s.2) && 2 * s.2 <= w
      && (2 * s.2 == w ==> s.0 == imin - 1 && s.1 == 0)
      && (Regular(imin, w) || 2 * s.2 == w ==> Normal(imin - 1, s.0, s.1, s.2, w))
      && (!Regular(imin, w) && 2 * s.2 != w ==> s.1 >= 32)
  }

  /** The values of (mask, i) before each round. */
  ghost function Masks(w: nat): iset<(nat, nat)> {
    iset m: (nat, nat) | m.1 > 0 ==> exists a: nat, b: nat :: Before(a, b, m.1, w) && m.0 == Mask(a, b)
  }

  lemma RoundStart(imin: nat, w: nat, value: nat, zeros: nat, i: nat, mask: nat)
    requires w >= 64 && w % 4 == 0 && w == 2 * i && imin >= 1 && (value, zeros, i) in States(imin, w)
    requires mask == Mask(i, i + w / 4)
    ensures And(value, mask) == 0 ==> (Shl(value, i, w), zeros + i, i / 2) in States(imin, w)
    ensures And(value, mask) != 0 ==> (value, zeros, i / 2) in States(imin, w)
  {
    RoundFirst(imin - 1, i, w);
  }

  lemma RegularState(imin: nat, w: nat, value: nat, zeros: nat, i: nat)
    requires imin >= 1 && Regular(imin, w) && Count(i) && 2 * i < w && Normal(imin - 1, value, zeros, i, w)
    ensures (value, zeros, i) in States(imin, w)
  {}

  lemma RoundRegular(imin: nat, w: nat, value: nat, zeros: nat, i: nat, mask: nat)
    requires imin >= 1 && (value, zeros, i) in States(imin, w) && i > 0 && Regular(imin, w)
    requires mask == Mask(w - i, w)
    ensures And(value, mask) == 0 ==> (Shl(value, i, w), zeros + i, i / 2) in States(imin, w)
    ensures And(value, mask) != 0 ==> (value, zeros, i / 2) in States(imin, w)
  {
    RoundTop(imin - 1, value, zeros, i, w);
    if And(value, mask) == 0 {
      RegularState(imin, w, Shl(value, i, w), zeros + i, i / 2);
    } else {
      RegularState(imin, w, value, zeros, i / 2);
    }
  }

  lemma RoundIrregular(imin: nat, w: nat, value: nat, zeros: nat, i: nat, value': nat, zeros': nat)
    requires imin >= 1 && (value, zeros, i) in States(imin, w) && i > 0 && 2 * i != w && !Regular(imin, w)
    requires zeros' >= zeros
    ensures (value', zeros', i / 2) in States(imin, w)
  {}

  lemma RoundMask(w: nat, mask: nat, i: nat)
    requires Width(w) && Count(i) && 2 * i <= w && (mask, i) in Masks(w) && i > 0
    ensures (Shl(mask, i, w), i / 2) in Masks(w)
    ensures i == 32 ==> w == 64 && Shl(mask, i, w) == Mask(i, i + w / 4)
    ensures i != 32 ==> Shl(mask, i, w) == Mask(w - i, w)
  {
    var a: nat, b: nat :| Before(a, b, i, w) && mask == Mask(a, b);
    ShiftedMask(w, a, b, i);
    var b' := if b + i <= w then b + i else w;
    MaskShifted(a, b, i, w);
    MaskIn(a + i, b', i / 2, w, Shl(mask, i, w));
  }

  lemma ShiftedMask(w: nat, a: nat, b: nat, i: nat)
    requires Width(w) && Count(i) && 2 * i <= w && Before(a, b, i, w) && i > 0
    ensures Mask(a, b) >= 0
    ensures i == 32 ==> w == 64 && Shl(Mask(a, b), i, w) == Mask(i, i + w / 4)
    ensures i != 32 ==> Shl(Mask(a, b), i, w) == Mask(w - i, w)
  {
    MaskShifted(a, b, i, w);
    var b' := if b + i <= w then b + i else w;
    if i == 32 { assert w == 64 && a + i == i && b' == i + w / 4; } else { assert a + i == w - i && b' == w; }
  }

  lemma MaskIn(a: nat, b: nat, i: nat, w: nat, mask: nat)
    requires i > 0 ==> Before(a, b, i, w) && mask == Mask(a, b)
    ensures (mask, i) in Masks(w)
  {}

  lemma StateCount(imin: nat, w: nat, value: nat, zeros: nat, i: nat)
    requires imin >= 1 && (value, zeros, i) in States(imin, w)
    ensures Count(i) && 2 * i <= w && (2 * i == w ==> value == imin - 1 && zeros == 0)
  {}

  lemma Round(imin: nat, w: nat, mask: nat, value: nat, zeros: nat, i: nat)
    requires Width(w) && imin >= 1 && (value, zeros, i) in States(imin, w) && (mask, i) in Masks(w) && i > 0
    ensures (Shl(mask, i, w), i / 2) in Masks(w)
    ensures And(value, Shl(mask, i, w)) == 0 ==> (Shl(value, i, w), zeros + i, i / 2) in States(imin, w)
    ensures And(value, Shl(mask, i, w)) != 0 ==> (value, zeros, i / 2) in States(imin, w)
  {
    StateCount(imin, w, value, zeros, i);
    RoundMask(w, mask, i);
    if i == 32 {
      RoundStart(imin, w, value, zeros, i, Shl(mask, i, w));
    } else if Regular(imin, w) {
      RoundRegular(imin, w, value, zeros, i, Shl(mask, i, w));
    } else {
      assert 2 * i != w;
      RoundIrregular(imin, w, value, zeros, i, value, zeros);
      RoundIrregular(imin, w, value, zeros, i, Shl(value, i, w), zeros + i);
    }
  }

  lemma Finish(imin: nat, w: nat, value: nat, zeros: nat)
    requires Width(w) && 2 <= imin < Pow2(w - 1) && (value, zeros, 0) in States(imin, w)
    ensures zeros >= 1 && (Largest(imin, zeros - 1, w) <==> Regular(imin, w))
    ensures !Regular(imin, w) ==> w == 64 && zeros >= w / 2
  {
    if Regular(imin, w) { LargestFound(imin, zeros, w); } else { TooMany(imin, zeros - 1, w); }
  }

  /** The body of the loop of max_imax; `s` are the states it may lead to. */
  method TestBits(mask: nat, value: nat, zeros: nat, i: nat, w: nat, ghost s: iset<(nat, nat, nat)>)
      returns (mask': nat, value': nat, zeros': nat)
    requires And(value, Shl(mask, i, w)) == 0 ==> (Shl(value, i, w), zeros + i, i / 2) in s
    requires And(value, Shl(mask, i, w)) != 0 ==> (value, zeros, i / 2) in s
    ensures mask' == Shl(mask, i, w) && (value', zeros', i / 2) in s
  {
    mask', value', zeros' := Shl(mask, i, w), value, zeros;
    if And(value, mask') == 0 {
      zeros', value' := zeros + i, Shl(value, i, w);
    }
  }

  /** The loop of max_imax: the leading zeros of Imin - 1, as far as its masks see them. */
  method LeadingZeros(imin: nat, w: nat) returns (zeros: nat, ghost value: nat)
    requires Width(w) && 2 <= imin < Pow2(w - 1)
    ensures (value, zeros, 0) in States(imin, w)
  {
    var v: nat, mask: nat, i: nat := imin - 1, 0xFFFF, w / 2;
    zeros := 0;
    Start(imin, w);
    while i > 0
      invariant (v, zeros, i) in States(imin, w) && (mask, i) in Masks(w)
    {
      Round(imin, w, mask, v, zeros, i);
      mask, v, zeros := TestBits(mask, v, zeros, i, w, States(imin, w));
      i := i / 2;
    }
    value := v;
  }

  /** max_imax, generic flavour: the largest exponent for every Imin of a 16- or 32-bit
      clock; of a 64-bit clock exactly when Imin is regular, and otherwise a larger one. */
  method MaxImax(imin: nat, w: nat) returns (e: int)
    requires Width(w) && 2 <= imin < Pow2(w - 1)
    ensures e >= 0 && (Largest(imin, e, w) <==> Regular(imin, w))
    ensures !Regular(imin, w) ==> w == 64 && e >= w / 2 - 1
  {
    ghost var value;
    var zeros;
    zeros, value := LeadingZeros(imin, w);
    Finish(imin, w, value, zeros);
    e := zeros - 1;
  }

  lemma Start(imin: nat, w: nat)
    requires Width(w) && 2 <= imin < Pow2(w - 1)
    ensures (imin - 1, 0, w / 2) in States(imin, w) && (0xFFFF, w / 2) in Masks(w)
  {
    SixteenBits();
    assert Before(0, 16, w / 2, w);
    MaskIn(0, 16, w / 2, w, 0xFFFF);
  }

  lemma SixteenBits()
    ensures Mask(0, 16) == 0xFFFF
  {
    assert Pow2(4) == 16;
    Pow2Adds(4, 4);
    Pow2Adds(8, 8);
  }

  // ----- the 16- and 32-bit flavours -----

  predicate PowerOfTwo(x: int) { exists n: nat :: n <= x && x == Pow2(n) }

  lemma {:induction false} Pow2Exceeds(n: nat)
    ensures n < Pow2(n)
  {
    if n > 0 { Pow2Exceeds(n - 1); }
  }

  ghost function Normals(v: nat, w: nat): iset<(nat, nat, nat)> {
    iset s: (nat, nat, nat) | Normal(v, s.0, s.1, s.2, w)
  }

  /** One test of the unrolled flavours. */
  method Strip(value: nat, zeros: nat, i: nat, w: nat, ghost v: nat) returns (value': nat, zeros': nat)
    requires i >= 1 && (i == 1 || i % 2 == 0) && (value, zeros, i) in Normals(v, w)
    ensures (value', zeros', i / 2) in Normals(v, w)
  {
    value', zeros' := value, zeros;
    RoundTop(v, value, zeros, i, w);
    if And(value, Mask(w - i, w)) == 0 {
      zeros', value' := zeros + i, Shl(value, i, w);
    }
  }

  method StripFour(value: nat, zeros: nat, w: nat, ghost v: nat) returns (value': nat, zeros': nat)
    requires (value, zeros, 4) in Normals(v, w)
    ensures (value', zeros', 0) in Normals(v, w)
  {
    value', zeros' := Strip(value, zeros, 4, w, v);
    value', zeros' := Strip(value', zeros', 2, w, v);
    value', zeros' := Strip(value', zeros', 1, w, v);
  }

  lemma UnrolledValues(imin: nat, h: nat, half: nat)
    requires h >= 1 && half <= imin * (2 * h) < 2 * half
    ensures imin * h <= half
    ensures half < imin * (2 * h) <==> imin * (2 * h) != half
  {
    assert imin * (2 * h) == 2 * (imin * h);
  }

  /** imin << zeros is half the clock range exactly for a power of two. */
  lemma ExactlyHalf(imin: nat, zeros: nat, w: nat)
    requires w >= 2 && 1 <= imin && zeros <= w - 1 && Pow2(w - 1) <= imin * Pow2(zeros) < Pow2(w)
    ensures imin * Pow2(zeros) == Pow2(w - 1) <==> PowerOfTwo(imin)
  {
    Pow2Adds(w - 1 - zeros, zeros);
    var q := Pow2(zeros);
    if imin * q == Pow2(w - 1) {
      SameFactor(imin, Pow2(w - 1 - zeros), q);
      Pow2Exceeds(w - 1 - zeros);
    }
    if PowerOfTwo(imin) {
      var n: nat :| n <= imin && imin == Pow2(n);
      Pow2Adds(n, zeros);
      if n + zeros < w - 1 { Pow2Monotone(n + zeros + 1, w - 1); }
      if n + zeros > w - 1 { Pow2Monotone(w, n + zeros); }
    }
  }

  lemma SameFactor(x: int, y: int, q: int)
    requires q >= 1 && x * q == y * q
    ensures x == y
  {
    Distribute(x, y, q);
    if x > y { MulAtLeast(q, x - y); assert false; }
    if x < y { Distribute(y, x, q); MulAtLeast(q, y - x); assert false; }
  }

  /** max_imax, 16- and 32-bit flavours.  They do not subtract 1 from Imin first, so they
      return the largest exponent exactly when Imin is not a power of two, and otherwise one
      less. */
  method MaxImaxUnrolled(imin: nat, w: nat) returns (e: int)
    requires (w == 16 || w == 32) && 2 <= imin < Pow2(w - 1)
    ensures e >= 0 && imin * Pow2(e) <= Pow2(w - 1)
    ensures Largest(imin, e, w) <==> !PowerOfTwo(imin)
    ensures PowerOfTwo(imin) ==> Largest(imin, e + 1, w)
  {
    var value, zeros := StripAll(imin, w);
    e := zeros - 1;
    Unrolled(imin, value, zeros, e, w);
  }

  method StripAll(imin: nat, w: nat) returns (value: nat, zeros: nat)
    requires (w == 16 || w == 32) && 2 <= imin < Pow2(w - 1)
    ensures (value, zeros, 0) in Normals(imin, w)
  {
    value, zeros := imin, 0;
    Unstripped(imin, w);
    if w == 32 { value, zeros := Strip(value, zeros, 16, w, imin); }
    value, zeros := Strip(value, zeros, 8, w, imin);
    value, zeros := StripFour(value, zeros, w, imin);
  }

  lemma Unstripped(imin: nat, w: nat)
    requires (w == 16 || w == 32) && 2 <= imin < Pow2(w - 1)
    ensures (imin, 0, w / 2) in Normals(imin, w)
  {}

  lemma Unrolled(imin: nat, value: nat, zeros: nat, e: int, w: nat)
    requires w >= 2 && 2 <= imin < Pow2(w - 1) && (value, zeros, 0) in Normals(imin, w) && e == zeros - 1
    ensures e >= 0 && imin * Pow2(e) <= Pow2(w - 1)
    ensures Largest(imin, e, w) <==> !PowerOfTwo(imin)
    ensures PowerOfTwo(imin) ==> Largest(imin, e + 1, w)
  {
    if zeros > 0 {
      UnrolledValues(imin, Pow2(zeros - 1), Pow2(w - 1));
      ExactlyHalf(imin, zeros, w);
      DoubledMore(imin, Pow2(zeros));
    }
  }

  lemma DoubledMore(imin: nat, p: nat)
    requires imin >= 1 && p >= 1
    ensures imin * p < imin * (2 * p)
  {
    assert imin * (2 * p) == 2 * (imin * p);
    MulAtLeast(imin, p);
  }

  // ----- trickle_timer_config -----

  predicate IminIsBad(imin: int, w: nat) { imin < 2 || imin > (Pow2(w) - 1) / 2 }

  /** TRICKLE_TIMER_IPAIR_IS_BAD. */
  predicate IpairIsBad(imin: int, imax: nat, w: nat) {
    (Pow2(w) - 1) / Pow2(imax + 1) < imin - 1
  }

  /** Imin << Imax is at most half the clock range. */
  predicate Fits(imin: int, imax: nat, w: nat)
    requires w >= 1
  {
    imin * Pow2(imax) <= Pow2(w - 1)
  }

  lemma OnesShifted(p: nat, q: nat)
    requires p >= 1 && q >= 1
    ensures (p * q - 1) / q == p - 1
  {
    Distribute(p, 1, q);
    assert q * (p - 1) == (p - 1) * q;
    UniqueRemainder(p * q - 1, p - 1, q - 1, q);
  }

  lemma BelowQuotient(x: int, p: nat, h: nat)
    requires h >= 1
    ensures x <= p <==> x * h <= p * h
  {
    if x > p { Distribute(x, p, h); MulAtLeast(h, x - p); } else { Distribute(p, x, h); }
  }

  /** The test is exact for every shift count below the clock width. */
  lemma IpairExact(imin: int, imax: nat, w: nat)
    requires imax + 1 < w
    ensures IpairIsBad(imin, imax, w) <==> !Fits(imin, imax, w)
  {
    var d := w - 1 - imax;
    Pow2Adds(d, imax + 1);
    OnesShifted(Pow2(d), Pow2(imax + 1));
    Pow2Adds(d, imax);
    BelowQuotient(imin, Pow2(d), Pow2(imax));
  }

  lemma HalfClock(imin: int, w: nat)
    requires w >= 1
    ensures IminIsBad(imin, w) <==> !(2 <= imin < Pow2(w - 1))
  {
    assert Pow2(w) == 2 * Pow2(w - 1);
  }

  /** A product within half the clock range is not cut off. */
  lemma NoWrap(imin: nat, e: nat, w: nat)
    requires w >= 1 && Fits(imin, e, w)
    ensures Shl(imin, e, w) == imin * Pow2(e) && imin <= imin * Pow2(e) <= Pow2(w - 1)
  {
    ShlMod(imin, e, w);
    ModSmall(imin * Pow2(e), Pow2(w));
    Ordered(1, Pow2(e), imin);
  }

  /** An irregular Imin is beyond 2^48. */
  lemma IrregularLarge(imin: nat, w: nat)
    requires w == 64 && imin >= 1 && !Regular(imin, w)
    ensures imin > Pow2(w / 2 + w / 4)
  {
    ClearBounds(imin - 1, w / 2, w / 2 + w / 4);
  }

  lemma Wraps(imin: nat, e: nat, w: nat)
    requires w == 64 && imin >= 2 && !Regular(imin, w) && e >= w / 2 - 1
    ensures Shl(imin, e, w) != imin * Pow2(e)
  {
    IrregularLarge(imin, w);
    Exceeds(imin, w / 2 + w / 4, w / 2 - 1, e, w);
    ShlMod(imin, e, w);
  }

  lemma Exceeds(imin: nat, a: nat, b: nat, e: nat, w: nat)
    requires imin > Pow2(a) && b <= e && w <= a + b
    ensures imin * Pow2(e) > Pow2(w)
  {
    Pow2Adds(a, b);
    Pow2Monotone(b, e);
    Pow2Monotone(w, a + b);
    TooManyValues(imin, Pow2(a), Pow2(b), Pow2(e));
  }

  lemma Adjusted(imin: nat, e: nat, w: nat)
    requires Width(w) && imin >= 2 && (Largest(imin, e, w) <==> Regular(imin, w))
    requires !Regular(imin, w) ==> w == 64 && e >= w / 2 - 1
    ensures Shl(imin, e, w) == imin * Pow2(e) <==> Regular(imin, w)
    ensures Regular(imin, w) ==> Fits(imin, e, w) && imin <= Shl(imin, e, w) <= Pow2(w - 1)
  {
    if Regular(imin, w) { NoWrap(imin, e, w); } else { Wraps(imin, e, w); }
  }

  /** trickle_timer_config: the exponent in use and Imin << Imax, or the error.  The
      exponent is the requested one when it fits and the largest one otherwise, and the
      product does not wrap, unless an irregular Imin of a 64-bit clock is adjusted. */
  method Configure(w: nat, imin: nat, imax: nat, k: nat) returns (ok: bool, e: nat, abs: nat)
    requires Width(w) && imin < Pow2(w) && imax + 1 < w && k < 256
    ensures ok <==> 2 <= imin < Pow2(w - 1) && imax != 0 && k != 0
    ensures ok ==> if Fits(imin, imax, w) then e == imax else (Largest(imin, e, w) <==> Regular(imin, w))
    ensures ok ==> (abs == imin * Pow2(e) <==> Fits(imin, imax, w) || Regular(imin, w))
    ensures ok && (Fits(imin, imax, w) || Regular(imin, w)) ==> Fits(imin, e, w) && imin <= abs <= Pow2(w - 1)
  {
    ok, e, abs := false, imax, 0;
    HalfClock(imin, w);
    if IminIsBad(imin, w) { return; }
    if imax == 0 || k == 0 { return; }
    ok := true;
    IpairExact(imin, imax, w);
    if IpairIsBad(imin, imax, w) {
      var m := MaxImax(imin, w);
      e := m;
      Adjusted(imin, e, w);
    } else {
      NoWrap(imin, e, w);
    }
    abs := Shl(imin, e, w);
  }
}
