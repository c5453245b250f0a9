/** The byte layout that contiki-ng/os/lib/ccm-star.c must produce, octet by octet as
    sections 2.2 and 2.3 of RFC 3610 give it, and what it means for the blocks the cipher
    sees. */
module CcmFormat {
  import opened CcmStar

  /** A flags octet, 13 nonce octets, and a number in two octets, high octet first. */
  ghost predicate Formatted(b: Bytes, flags: bv8, nonce: Bytes, number: nat) {
    && |b| == 16 && |nonce| == 13 && number < 256
    && b[0] == flags && (forall j :: 1 <= j <= 13 ==> b[j] == nonce[j - 1])
    && b[14] == 0 && b[15] == Octet(number)
  }

  /** The octets determine the block. */
  lemma FormatDetermines(b: Bytes, c: Bytes, flags: bv8, nonce: Bytes, number: nat)
    requires Formatted(b, flags, nonce, number) && Formatted(c, flags, nonce, number)
    ensures b == c
  {
    forall k | 0 <= k < 16 ensures b[k] == c[k] {
      if 1 <= k <= 13 { assert b[k] == nonce[k - 1] && c[k] == nonce[k - 1]; }
    }
  }

  /** The octets of the numbers a counter can have. */
  lemma CounterOctet(n: nat)
    requires n < 16
    ensures var octets: seq<bv8> := [0, 1, 2, 3, 4, 5, 6, 7, 8, 9, 10, 11, 12, 13, 14, 15]; Octet(n) == octets[n]
  {
    if n < 8 {
      if n == 0 {} else if n == 1 {} else if n == 2 {} else if n == 3 {} else if n == 4 {} else if n == 5 {} else if n == 6 {} else {}
    } else {
      if n == 8 {} else if n == 9 {} else if n == 10 {} else if n == 11 {} else if n == 12 {} else if n == 13 {} else if n == 14 {} else {}
    }
  }

  /** Different counters give different blocks. */
  lemma CountersDiffer(b: Bytes, c: Bytes, flags: bv8, nonce: Bytes, i: nat, j: nat)
    requires Formatted(b, flags, nonce, i) && Formatted(c, flags, nonce, j) && i < 16 && j < 16
    ensures b == c <==> i == j
  {
    CounterOctet(i);
    CounterOctet(j);
    if i == j { FormatDetermines(b, c, flags, nonce, i); }
  }

  /** Byte i of the message is masked with an octet of E(A_n), where A_n has flags 1 and the
      number n = i / 16 + 1. */
  lemma MessageOctet(e: Cipher, nonce: Bytes, m: Bytes, i: nat, block: Bytes)
    requires BlockCipher(e) && |nonce| == NONCE && i < |m| <= 240
    requires Formatted(block, 1, nonce, i / 16 + 1)
    ensures Crypt(e, nonce, m)[i] == m[i] ^ e(block)[i % 16]
  {
    IvFormatted(1, nonce, i / 16 + 1);
    FormatDetermines(block, Iv(1, nonce, i / 16 + 1), 1, nonce, i / 16 + 1);
  }

  lemma IvFormatted(flags: bv8, nonce: Bytes, number: nat)
    requires |nonce| == NONCE && number < 256
    ensures Formatted(Iv(flags, nonce, number), flags, nonce, number)
  {
    var b := Iv(flags, nonce, number);
    forall j | 1 <= j <= 13 ensures b[j] == nonce[j - 1] {}
  }

  /** No block of the key stream is used for two blocks of the message, and none for the MIC:
      the blocks that the cipher sees for byte i, for byte j of another block, and for the
      mask of the MIC are three different ones; and none of them starts a CBC-MAC. */
  lemma CounterBlocksDiffer(nonce: Bytes, i: nat, j: nat, a: Bytes, b: Bytes, mask: Bytes)
    requires |nonce| == NONCE && i < 240 && j < 240
    requires Formatted(a, 1, nonce, i / 16 + 1) && Formatted(b, 1, nonce, j / 16 + 1) && Formatted(mask, 1, nonce, 0)
    ensures a != mask && (a == b <==> i / 16 == j / 16)
  {
    CountersDiffer(a, mask, 1, nonce, i / 16 + 1, 0);
    CountersDiffer(a, b, 1, nonce, i / 16 + 1, j / 16 + 1);
  }

  /** B_0 differs from every counter block, because its flags say how long the MIC is. */
  lemma FirstBlockDiffers(adata: bool, micLen: nat, nonce: Bytes, n: nat, number: nat, b0: Bytes, a: Bytes)
    requires micLen in {4, 6, 8, 10, 12, 14, 16}
    requires Formatted(b0, AuthFlags(adata, micLen), nonce, n) && Formatted(a, 1, nonce, number)
    ensures b0 != a
  {
    AuthFlagsFormat(adata, micLen);
  }

  // ----- the authenticated data -----

  /** Octet i of the data in front of which its length stands, with zeros behind. */
  function DataOctet(a: Bytes, i: nat): bv8
    requires |a| < 256
  {
    if i == 0 then 0 else if i == 1 then |a| as bv8 else if i - 2 < |a| then a[i - 2] else 0
  }

  lemma {:induction false} BlocksCount(d: Bytes)
    ensures |Blocks(d)| == (|d| + 15) / 16
    decreases |d|
  {
    if |d| > BLOCK { BlocksCount(Rest(d)); }
  }

  /** Octet j of block k. */
  lemma {:induction false} BlockOctet(d: Bytes, k: nat, j: nat)
    requires k < |Blocks(d)| && j < 16
    ensures Blocks(d)[k][j] == if 16 * k + j < |d| then d[16 * k + j] else 0
    decreases |d|
  {
    if k > 0 {
      BlockOctet(Rest(d), k - 1, j);
    }
  }

  lemma BlocksOctet(d: Bytes, i: nat)
    ensures |Blocks(d)| == (|d| + 15) / 16
    ensures i / 16 < |Blocks(d)| ==> Blocks(d)[i / 16][i % 16] == if i < |d| then d[i] else 0
  {
    BlocksCount(d);
    if i / 16 < |Blocks(d)| { BlockOctet(d, i / 16, i % 16); }
  }

  /** The blocks of the associated data: the length in two octets, the data, zeros.  There
      are none without associated data. */
  lemma AssociatedOctets(a: Bytes, i: nat)
    requires |a| < 256
    ensures |Blocks(AuthData(a))| == if a == [] then 0 else (|a| + 17) / 16
    ensures i / 16 < |Blocks(AuthData(a))| ==> Blocks(AuthData(a))[i / 16][i % 16] == DataOctet(a, i)
  {
    BlocksOctet(AuthData(a), i);
  }

  /** The blocks of the message: its octets, zeros. */
  lemma MessageOctets(m: Bytes, i: nat)
    ensures |Blocks(m)| == (|m| + 15) / 16
    ensures i / 16 < |Blocks(m)| ==> Blocks(m)[i / 16][i % 16] == if i < |m| then m[i] else 0
  {
    BlocksOctet(m, i);
  }

  // ----- the chain -----

  /** xs are the chaining values: each is the cipher's image of the octet-wise XOR of the one
      before with the next block. */
  ghost predicate Chained(e: Cipher, blocks: seq<Bytes>, xs: seq<Bytes>, sums: seq<Bytes>) {
    && |xs| == |blocks| + 1 && |sums| == |blocks|
    && (forall i :: 0 <= i < |xs| ==> |xs[i]| == 16)
    && (forall i :: 0 <= i < |blocks| ==> |blocks[i]| == |sums[i]| == 16 && xs[i + 1] == e(sums[i]))
    && (forall i, j :: 0 <= i < |blocks| && 0 <= j < 16 ==> sums[i][j] == xs[i][j] ^ blocks[i][j])
  }

  /** The CBC-MAC is the end of that chain, whichever way it is written down. */
  lemma {:induction false} CbcMacIsChain(e: Cipher, blocks: seq<Bytes>, xs: seq<Bytes>, sums: seq<Bytes>)
    requires BlockCipher(e) && Chained(e, blocks, xs, sums)
    ensures CbcMac(e, xs[0], blocks) == xs[|blocks|]
    decreases |blocks|
  {
    if blocks != [] {
      assert sums[0] == Xor(xs[0], blocks[0]);
      assert Chained(e, blocks[1..], xs[1..], sums[1..]);
      CbcMacIsChain(e, blocks[1..], xs[1..], sums[1..]);
    }
  }

  /** Octet j of the MIC: the last value of the chain that starts with E(B_0) and runs over
      the blocks of the associated data and of the message, masked with E(A_0). */
  lemma MicOctet(e: Cipher, nonce: Bytes, m: Bytes, a: Bytes, micLen: nat, b0: Bytes, mask: Bytes, xs: seq<Bytes>, sums: seq<Bytes>, j: nat)
    requires BlockCipher(e) && |nonce| == NONCE && |m| < 256 && |a| < 256 && j < micLen <= 16
    requires Formatted(b0, AuthFlags(a != [], micLen), nonce, |m|) && Formatted(mask, 1, nonce, 0)
    requires Chained(e, Blocks(AuthData(a)) + Blocks(m), xs, sums) && xs[0] == e(b0)
    ensures |Mic(e, nonce, m, a, micLen)| == micLen
    ensures Mic(e, nonce, m, a, micLen)[j] == xs[|xs| - 1][j] ^ e(mask)[j]
  {
    var flags := AuthFlags(a != [], micLen);
    IvFormatted(flags, nonce, |m|);
    IvFormatted(1, nonce, 0);
    FormatDetermines(b0, Iv(flags, nonce, |m|), flags, nonce, |m|);
    FormatDetermines(mask, Iv(1, nonce, 0), 1, nonce, 0);
    CbcMacIsChain(e, Blocks(AuthData(a)) + Blocks(m), xs, sums);
  }
}
