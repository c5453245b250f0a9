/** CCM* of contiki-ng/os/lib/ccm-star.c: in-place block loops with 8-bit positions,
    against the formatted blocks of RFC 3610 (sections 2.2 and 2.3).  The block cipher is
    any function from 16-byte blocks to 16-byte blocks. */
module CcmStar {
  import opened Arith

  const BLOCK: nat := 16
  const NONCE: nat := 13

  type Bytes = seq<bv8>
  type Cipher = Bytes -> Bytes

  ghost predicate BlockCipher(e: Cipher) {
    forall b :: |b| == BLOCK ==> |e(b)| == BLOCK
  }

  // ----- RFC 3610 -----

  function Octet(n: nat): bv8
    requires n < 256
  {
    n as bv8
  }

  /** Flags, nonce and a two-octet number: the layout of B_0 and of the A_i. */
  function Iv(flags: bv8, nonce: Bytes, counter: nat): (b: Bytes)
    requires |nonce| == NONCE && counter < 256
    ensures |b| == BLOCK
  {
    [flags] + nonce + [0, Octet(counter)]
  }

  /** CCM_STAR_AUTH_FLAGS in 32-bit unsigned arithmetic, stored in a byte. */
  function AuthFlags(adata: bool, m: nat): bv8
    requires m < 256
  {
    var f: bv32 := (if adata then 64 else 0) | ((((m as bv32) - 2) >> 1) << 3) | 1;
    (f & 0xFF) as bv8
  }

  /** 64 * Adata + 8 * M' + L', for the lengths a MIC may have (section 2.2). */
  lemma AuthFlagsFormat(adata: bool, m: nat)
    requires m in {4, 6, 8, 10, 12, 14, 16}
    ensures AuthFlags(adata, m) == Octet((if adata then 64 else 0) + 8 * ((m - 2) / 2) + 1)
  {
    if m == 4 {} else if m == 6 {} else if m == 8 {} else if m == 10 {} else if m == 12 {} else if m == 14 {} else {}
  }

  /** Zero padding to a whole block. */
  function Pad(d: Bytes): (b: Bytes)
    requires |d| <= BLOCK
    ensures |b| == BLOCK
  {
    d + seq(BLOCK - |d|, _ => 0)
  }

  function Take(d: Bytes): Bytes { if |d| <= BLOCK then d else d[..BLOCK] }
  function Rest(d: Bytes): Bytes { if |d| <= BLOCK then [] else d[BLOCK..] }

  /** Data cut into zero-padded blocks. */
  function Blocks(d: Bytes): (bs: seq<Bytes>)
    ensures forall i :: 0 <= i < |bs| ==> |bs[i]| == BLOCK
    decreases |d|
  {
    if d == [] then [] else [Pad(Take(d))] + Blocks(Rest(d))
  }

  function Xor(a: Bytes, b: Bytes): (x: Bytes)
    requires |a| == |b|
    ensures |x| == |a| && forall i :: 0 <= i < |a| ==> x[i] == a[i] ^ b[i]
  {
    seq(|a|, i requires 0 <= i < |a| => a[i] ^ b[i])
  }

  /** CBC-MAC over blocks, from chaining value x: X_{i+1} = E(X_i ^ B_i). */
  ghost function CbcMac(e: Cipher, x: Bytes, blocks: seq<Bytes>): (t: Bytes)
    requires BlockCipher(e) && |x| == BLOCK && forall i :: 0 <= i < |blocks| ==> |blocks[i]| == BLOCK
    ensures |t| == BLOCK
    decreases |blocks|
  {
    if blocks == [] then x else CbcMac(e, e(Xor(x, blocks[0])), blocks[1..])
  }

  /** The associated data with its length in front, nothing when there is none. */
  function AuthData(a: Bytes): Bytes
    requires |a| < 256
  {
    if a == [] then [] else [0, Octet(|a|)] + a
  }

  /** The MIC: the first micLen bytes of the CBC-MAC over B_0 and the formatted data,
      masked with S_0. */
  ghost function Mic(e: Cipher, nonce: Bytes, m: Bytes, a: Bytes, micLen: nat): Bytes
    requires BlockCipher(e) && |nonce| == NONCE && |m| < 256 && |a| < 256 && micLen <= BLOCK
  {
    var x1 := e(Iv(AuthFlags(a != [], micLen), nonce, |m|));
    var t := CbcMac(e, x1, Blocks(AuthData(a)) + Blocks(m));
    Xor(t, e(Iv(1, nonce, 0)))[..micLen]
  }

  /** Byte i of the key stream: S_1, S_2, ... */
  ghost function Key(e: Cipher, nonce: Bytes, i: nat): bv8
    requires BlockCipher(e) && |nonce| == NONCE && i < 240
  {
    e(Iv(1, nonce, 1 + i / BLOCK))[i % BLOCK]
  }

  ghost function Crypt(e: Cipher, nonce: Bytes, m: Bytes): (c: Bytes)
    requires BlockCipher(e) && |nonce| == NONCE && |m| <= 240
    ensures |c| == |m|
  {
    seq(|m|, i requires 0 <= i < |m| => m[i] ^ Key(e, nonce, i))
  }

  // ----- properties of the specification -----

  lemma XorTwice(x: bv8, k: bv8)
    ensures (x ^ k) ^ k == x
  {}

  /** Encrypting twice gives the message back. */
  lemma CryptInvolution(e: Cipher, nonce: Bytes, m: Bytes)
    requires BlockCipher(e) && |nonce| == NONCE && |m| <= 240
    ensures Crypt(e, nonce, Crypt(e, nonce, m)) == m
  {
    var c := Crypt(e, nonce, m);
    forall i | 0 <= i < |m| ensures Crypt(e, nonce, c)[i] == m[i] {
      XorTwice(m[i], Key(e, nonce, i));
    }
  }

  /** aead forward on a message, and aead backward on its result. */
  ghost function Seal(e: Cipher, nonce: Bytes, m: Bytes, a: Bytes, micLen: nat): (Bytes, Bytes)
    requires BlockCipher(e) && |nonce| == NONCE && |m| <= 240 && |a| < 256 && micLen <= BLOCK
  {
    (Crypt(e, nonce, m), Mic(e, nonce, m, a, micLen))
  }

  ghost function Open(e: Cipher, nonce: Bytes, c: Bytes, a: Bytes, micLen: nat): (Bytes, Bytes)
    requires BlockCipher(e) && |nonce| == NONCE && |c| <= 240 && |a| < 256 && micLen <= BLOCK
  {
    (Crypt(e, nonce, c), Mic(e, nonce, Crypt(e, nonce, c), a, micLen))
  }

  /** Decryption restores the message and yields the MIC that encryption produced. */
  lemma AeadRoundTrip(e: Cipher, nonce: Bytes, m: Bytes, a: Bytes, micLen: nat)
    requires BlockCipher(e) && |nonce| == NONCE && |m| <= 240 && |a| < 256 && micLen <= BLOCK
    ensures Open(e, nonce, Seal(e, nonce, m, a, micLen).0, a, micLen) == (m, Seal(e, nonce, m, a, micLen).1)
  {
    CryptInvolution(e, nonce, m);
  }

  /** The position after a block, in 8 bits. */
  function NextPos(pos: nat): (next: nat)
    requires pos < 256
    ensures next < 256 && (pos < 240 ==> next == pos + BLOCK)
  {
    (pos + BLOCK) % 256
  }

  /** The position after k blocks. */
  function Position(start: nat, k: nat): (pos: nat)
    requires start < 256
    ensures pos < 256
  {
    if k == 0 then start else NextPos(Position(start, k - 1))
  }

  lemma {:induction false} PositionAt(start: nat, k: nat)
    requires start < 256
    ensures Position(start, k) == (start + BLOCK * k) % 256
  {
    if k == 0 {
      ModSmall(start, 256);
    } else {
      PositionAt(start, k - 1);
      ModOfSum(start + BLOCK * (k - 1), BLOCK, 256);
    }
  }

  /** Positions keep their place within the block. */
  lemma {:induction false} PositionBound(start: nat, k: nat)
    requires start < BLOCK
    ensures Position(start, k) % BLOCK == start && Position(start, k) <= 240 + start
  {
    if k > 0 { PositionBound(start, k - 1); }
  }

  lemma {:induction false} BeforeWrap(start: nat, k: nat)
    requires start < BLOCK && k < 16
    ensures Position(start, k) == start + BLOCK * k
  {
    if k > 0 { BeforeWrap(start, k - 1); }
  }

  /** The loops over blocks, whose position has 8 bits, stop exactly for messages of at
      most 240 bytes (from 0) and associated data of at most 254 bytes (from 14). */
  lemma LoopsStopExactly(len: nat)
    requires len < 256
    ensures (exists k: nat :: Position(0, k) >= len) <==> len <= 240
    ensures (exists k: nat :: Position(14, k) >= len) <==> len <= 254
  {
    Highest(0, 15);
    Highest(14, 15);
  }

  lemma Highest(start: nat, last: nat)
    requires start < BLOCK && last == 15
    ensures Position(start, last) == 240 + start && forall k: nat :: Position(start, k) <= 240 + start
  {
    BeforeWrap(start, last);
    forall k: nat ensures Position(start, k) <= 240 + start { PositionBound(start, k); }
  }

  // ----- the loops -----

  /** XOR of a block with data shorter than a block: the zero padding is implicit. */
  ghost function XorPadded(x: Bytes, d: Bytes): Bytes
    requires |x| == BLOCK && |d| <= BLOCK
  {
    Xor(x, Pad(d))
  }

  /** CBC-MAC the way the loops run it, 16 bytes at a time without padding. */
  ghost function CbcRun(e: Cipher, x: Bytes, d: Bytes): (t: Bytes)
    requires BlockCipher(e) && |x| == BLOCK
    ensures |t| == BLOCK
    decreases |d|
  {
    if d == [] then x else CbcRun(e, e(XorPadded(x, Take(d))), Rest(d))
  }

  lemma {:induction false} CbcRunIsMac(e: Cipher, x: Bytes, d: Bytes)
    requires BlockCipher(e) && |x| == BLOCK
    ensures CbcRun(e, x, d) == CbcMac(e, x, Blocks(d))
    decreases |d|
  {
    if d != [] {
      CbcRunIsMac(e, e(XorPadded(x, Take(d))), Rest(d));
      assert Blocks(d)[1..] == Blocks(Rest(d));
    }
  }

  lemma {:induction false} CbcMacAppend(e: Cipher, x: Bytes, a: seq<Bytes>, b: seq<Bytes>)
    requires BlockCipher(e) && |x| == BLOCK
    requires forall i :: 0 <= i < |a| ==> |a[i]| == BLOCK
    requires forall i :: 0 <= i < |b| ==> |b[i]| == BLOCK
    ensures CbcMac(e, x, a + b) == CbcMac(e, CbcMac(e, x, a), b)
    decreases |a|
  {
    if a == [] {
      assert a + b == b;
    } else {
      assert (a + b)[1..] == a[1..] + b;
      CbcMacAppend(e, e(Xor(x, a[0])), a[1..], b);
    }
  }

  /** AES_128.encrypt. */
  method Encrypt(e: Cipher, x: array<bv8>)
    requires BlockCipher(e) && x.Length == BLOCK
    modifies x
    ensures x[..] == e(old(x[..]))
  {
    var y := e(x[..]);
    var i := 0;
    while i < BLOCK
      invariant 0 <= i <= BLOCK && |y| == BLOCK && x[..i] == y[..i]
    {
      x[i] := y[i];
      i := i + 1;
    }
  }

  /** set_iv. */
  method SetIv(iv: array<bv8>, flags: bv8, nonce: Bytes, counter: nat)
    requires iv.Length == BLOCK && |nonce| == NONCE && counter < 256
    modifies iv
    ensures iv[..] == Iv(flags, nonce, counter)
  {
    iv[0] := flags;
    var i := 0;
    while i < NONCE
      invariant 0 <= i <= NONCE && iv[0] == flags
      invariant forall j :: 0 <= j < i ==> iv[1 + j] == nonce[j]
    {
      iv[1 + i] := nonce[i];
      i := i + 1;
    }
    iv[14] := 0;
    iv[15] := Octet(counter);
    var b := Iv(flags, nonce, counter);
    forall j | 0 <= j < BLOCK ensures iv[j] == b[j] {
      if 1 <= j < 14 { assert iv[1 + (j - 1)] == nonce[j - 1]; }
    }
  }

  /** ctr_step: m[pos .. pos + 15] is XORed with the encrypted counter block. */
  method CtrStep(e: Cipher, nonce: Bytes, pos: nat, m: array<bv8>, counter: nat)
    requires BlockCipher(e) && |nonce| == NONCE && counter < 256 && pos <= m.Length < 256
    modifies m
    ensures forall j :: 0 <= j < m.Length ==>
              m[j] == if pos <= j < pos + BLOCK then old(m[j]) ^ e(Iv(1, nonce, counter))[j - pos] else old(m[j])
  {
    var a := new bv8[BLOCK];
    SetIv(a, 1, nonce, counter);
    Encrypt(e, a);
    ghost var k := e(Iv(1, nonce, counter));
    assert a[..] == k;
    var i := 0;
    while pos + i < m.Length && i < BLOCK
      invariant 0 <= i <= BLOCK && pos + i <= m.Length
      invariant a[..] == k && a != m
      invariant forall j :: 0 <= j < m.Length ==> m[j] == if pos <= j < pos + i then old(m[j]) ^ k[j - pos] else old(m[j])
    {
      assert a[i] == k[i];
      m[pos + i] := m[pos + i] ^ a[i];
      i := i + 1;
    }
  }

  /** ctr: every byte is XORed with the key stream. */
  method Ctr(e: Cipher, nonce: Bytes, m: array<bv8>)
    requires BlockCipher(e) && |nonce| == NONCE && m.Length <= 240
    modifies m
    ensures m[..] == Crypt(e, nonce, old(m[..]))
  {
    var pos, counter := 0, 1;
    while pos < m.Length
      invariant 0 <= pos <= 240 && pos % BLOCK == 0 && counter == 1 + pos / BLOCK
      invariant forall j :: 0 <= j < m.Length ==> m[j] == if j < pos then old(m[j]) ^ Key(e, nonce, j) else old(m[j])
    {
      ghost var before := m[..];
      CtrStep(e, nonce, pos, m, counter);
      forall j | 0 <= j < m.Length
        ensures m[j] == if j < pos + BLOCK then old(m[j]) ^ Key(e, nonce, j) else old(m[j])
      {
        assert before[j] == if j < pos then old(m[j]) ^ Key(e, nonce, j) else old(m[j]);
        if pos <= j < pos + BLOCK { assert j / BLOCK == pos / BLOCK && j % BLOCK == j - pos; }
      }
      counter := counter + 1;
      pos := NextPos(pos);
    }
  }

  function Drop(d: Bytes, pos: nat): Bytes { if pos <= |d| then d[pos..] else [] }

  /** The inner loops of mic: up to 16 bytes from position pos on. */
  method XorInto(x: array<bv8>, d: array<bv8>, pos: nat)
    requires x.Length == BLOCK && pos < d.Length && x != d
    modifies x
    ensures x[..] == XorPadded(old(x[..]), Take(d[pos..]))
  {
    ghost var t := Pad(Take(d[pos..]));
    var i := 0;
    while pos + i < d.Length && i < BLOCK
      invariant 0 <= i <= BLOCK && pos + i <= d.Length
      invariant forall j :: 0 <= j < BLOCK ==> x[j] == if j < i then old(x[j]) ^ t[j] else old(x[j])
    {
      x[i] := x[i] ^ d[pos + i];
      i := i + 1;
    }
    forall j | i <= j < BLOCK ensures x[j] == old(x[j]) ^ t[j] { XorZero(x[j]); }
  }

  lemma XorZero(b: bv8)
    ensures b ^ 0 == b
  {}

  lemma CbcStep(e: Cipher, x: Bytes, d: Bytes, pos: nat)
    requires BlockCipher(e) && |x| == BLOCK && pos < |d|
    ensures CbcRun(e, x, Drop(d, pos)) == CbcRun(e, e(XorPadded(x, Take(d[pos..]))), Drop(d, pos + BLOCK))
  {
    assert Rest(d[pos..]) == Drop(d, pos + BLOCK);
  }

  method AbsorbBlock(e: Cipher, x: array<bv8>, d: array<bv8>, pos: nat)
    requires BlockCipher(e) && x.Length == BLOCK && pos < d.Length && x != d
    modifies x
    ensures x[..] == e(XorPadded(old(x[..]), Take(d[..][pos..])))
  {
    XorInto(x, d, pos);
    Encrypt(e, x);
    assert d[..][pos..] == d[pos..];
  }

  /** The outer loops of mic over associated data (from 14) and message (from 0). */
  method Absorb(e: Cipher, x: array<bv8>, d: array<bv8>, start: nat)
    requires BlockCipher(e) && x.Length == BLOCK && x != d
    requires start < BLOCK && d.Length <= start + 240
    modifies x
    ensures x[..] == CbcRun(e, old(x[..]), Drop(d[..], start))
  {
    ghost var bytes, t := d[..], CbcRun(e, x[..], Drop(d[..], start));
    ghost var k := 0;
    var pos := start;
    while pos < d.Length
      invariant pos == start + 16 * k && 0 <= k <= 15
      invariant d[..] == bytes && CbcRun(e, x[..], Drop(bytes, pos)) == t
    {
      AbsorbAt(e, x, d, pos, t);
      k := k + 1;
      pos := NextPos(pos);
    }
    assert Drop(bytes, pos) == [];
  }

  method AbsorbAt(e: Cipher, x: array<bv8>, d: array<bv8>, pos: nat, ghost t: Bytes)
    requires BlockCipher(e) && x.Length == BLOCK && pos < d.Length && x != d
    requires CbcRun(e, x[..], Drop(d[..], pos)) == t
    modifies x
    ensures CbcRun(e, x[..], Drop(d[..], pos + BLOCK)) == t
  {
    CbcStep(e, x[..], d[..], pos);
    AbsorbBlock(e, x, d, pos);
  }

  /** The first block of associated data: its length, then up to 14 bytes. */
  method AbsorbLength(x: array<bv8>, a: array<bv8>)
    requires x.Length == BLOCK && 0 < a.Length < 256 && x != a
    modifies x
    ensures x[..] == XorPadded(old(x[..]), Take(AuthData(a[..])))
  {
    ghost var t := Pad(Take(AuthData(a[..])));
    AuthBlock(a[..]);
    XorZero(x[0]);
    x[1] := x[1] ^ Octet(a.Length);
    var i := 2;
    while i - 2 < a.Length && i < BLOCK
      invariant 2 <= i <= BLOCK && i - 2 <= a.Length
      invariant forall j :: 0 <= j < BLOCK ==> x[j] == if j < i then old(x[j]) ^ t[j] else old(x[j])
    {
      x[i] := x[i] ^ a[i - 2];
      i := i + 1;
    }
    forall j | i <= j < BLOCK ensures x[j] == old(x[j]) ^ t[j] { XorZero(x[j]); }
  }

  lemma AuthBlock(a: Bytes)
    requires 0 < |a| < 256
    ensures var t := Pad(Take(AuthData(a)));
            && t[0] == 0 && t[1] == Octet(|a|)
            && forall i :: 2 <= i < BLOCK ==> t[i] == if i - 2 < |a| then a[i - 2] else 0
  {}

  /** The CBC-MAC part of mic. */
  method Authenticate(e: Cipher, nonce: Bytes, m: array<bv8>, a: array<bv8>, micLen: nat) returns (x: array<bv8>)
    requires BlockCipher(e) && |nonce| == NONCE && m.Length <= 240 && a.Length <= 254 && micLen <= BLOCK
    ensures fresh(x) && x.Length == BLOCK
    ensures x[..] == CbcMac(e, e(Iv(AuthFlags(a[..] != [], micLen), nonce, m.Length)), Blocks(AuthData(a[..])) + Blocks(m[..]))
  {
    x := new bv8[BLOCK];
    SetIv(x, AuthFlags(a.Length != 0, micLen), nonce, m.Length);
    Encrypt(e, x);
    ghost var x1 := x[..];
    if a.Length != 0 {
      AbsorbLength(x, a);
      Encrypt(e, x);
      Absorb(e, x, a, 14);
      assert Rest(AuthData(a[..])) == Drop(a[..], 14);
    }
    assert x[..] == CbcRun(e, x1, AuthData(a[..]));
    Absorb(e, x, m, 0);
    assert Drop(m[..], 0) == m[..];
    CbcRunIsMac(e, x1, AuthData(a[..]));
    CbcRunIsMac(e, CbcMac(e, x1, Blocks(AuthData(a[..]))), m[..]);
    CbcMacAppend(e, x1, Blocks(AuthData(a[..])), Blocks(m[..]));
  }

  /** The last step of mic: S_0 over the whole block. */
  method Mask(e: Cipher, nonce: Bytes, x: array<bv8>)
    requires BlockCipher(e) && |nonce| == NONCE && x.Length == BLOCK
    modifies x
    ensures x[..] == Xor(old(x[..]), e(Iv(1, nonce, 0)))
  {
    ghost var before, k := x[..], e(Iv(1, nonce, 0));
    CtrStep(e, nonce, 0, x, 0);
    XorWhole(before, k, x[..]);
  }

  lemma XorWhole(before: Bytes, k: Bytes, after: Bytes)
    requires |before| == |k| == |after| && forall j :: 0 <= j < |after| ==> after[j] == before[j] ^ k[j]
    ensures after == Xor(before, k)
  {}

  /** mic: the CBC-MAC over the formatted blocks, masked with S_0, cut to its length. */
  method ComputeMic(e: Cipher, nonce: Bytes, m: array<bv8>, a: array<bv8>, result: array<bv8>, micLen: nat)
    requires BlockCipher(e) && |nonce| == NONCE && m.Length <= 240 && a.Length <= 254
    requires micLen <= BLOCK && micLen <= result.Length && result != m && result != a
    modifies result
    ensures result[..micLen] == Mic(e, nonce, m[..], a[..], micLen)
    ensures forall j :: micLen <= j < result.Length ==> result[j] == old(result[j])
  {
    var x := Authenticate(e, nonce, m, a, micLen);
    Mask(e, nonce, x);
    CopyOut(x, result, micLen);
  }

  /** memcpy of the first n bytes. */
  method CopyOut(x: array<bv8>, result: array<bv8>, n: nat)
    requires n <= x.Length && n <= result.Length && x != result
    modifies result
    ensures result[..n] == x[..][..n]
    ensures forall j :: n <= j < result.Length ==> result[j] == old(result[j])
  {
    var i := 0;
    while i < n
      invariant 0 <= i <= n
      invariant forall j :: 0 <= j < result.Length ==> result[j] == if j < i then x[j] else old(result[j])
    {
      result[i] := x[i];
      i := i + 1;
    }
  }

  /** aead: the MIC is taken over the plain message, before encrypting or after decrypting. */
  method Aead(e: Cipher, nonce: Bytes, m: array<bv8>, a: array<bv8>, result: array<bv8>, micLen: nat, forward: bool)
    requires BlockCipher(e) && |nonce| == NONCE && m.Length <= 240 && a.Length <= 254
    requires micLen <= BLOCK && micLen <= result.Length && result != m && result != a && m != a
    modifies m, result
    ensures (m[..], result[..micLen]) ==
            if forward then Seal(e, nonce, old(m[..]), a[..], micLen) else Open(e, nonce, old(m[..]), a[..], micLen)
    ensures m[..] == Crypt(e, nonce, old(m[..]))
    ensures result[..micLen] == Mic(e, nonce, if forward then old(m[..]) else m[..], a[..], micLen)
  {
    if !forward { Ctr(e, nonce, m); }
    ComputeMic(e, nonce, m, a, result, micLen);
    if forward { Ctr(e, nonce, m); }
  }
}
