/**
 * Byte types and the cryptographic building blocks lkpb.py takes from the
 * `cryptography` library.
 *
 * AES-256 and HMAC-SHA-256 are not modelled internally: they are carried as
 * function values in `Primitives`, and the only fact about them that the
 * container logic relies on (AES decryption undoes AES encryption under the
 * same key) is the predicate `AesInverse`. The CBC chaining of section 6.2 of
 * NIST SP 800-38A is written out over that abstract block cipher, so the
 * streaming and round-trip facts the container needs are proved here.
 */
module Crypto {
  type byte = bv8
  type Bytes = seq<byte>

  const BLOCK_LEN: nat := 16
  const TAG_LEN: nat := 32
  const KEY_LEN: nat := 32

  /** One AES block. */
  type Block = b: Bytes | |b| == BLOCK_LEN
    witness [0, 0, 0, 0, 0, 0, 0, 0, 0, 0, 0, 0, 0, 0, 0, 0]

  /** An HMAC-SHA-256 tag. */
  type Tag = t: Bytes | |t| == TAG_LEN
    witness [0, 0, 0, 0, 0, 0, 0, 0, 0, 0, 0, 0, 0, 0, 0, 0,
             0, 0, 0, 0, 0, 0, 0, 0, 0, 0, 0, 0, 0, 0, 0, 0]

  /** An AES-256 key: the SHA-256 digest of the key file. */
  type Key = k: Bytes | |k| == KEY_LEN
    witness [0, 0, 0, 0, 0, 0, 0, 0, 0, 0, 0, 0, 0, 0, 0, 0,
             0, 0, 0, 0, 0, 0, 0, 0, 0, 0, 0, 0, 0, 0, 0, 0]

  /** The library primitives, left abstract. */
  datatype Primitives = Primitives(
    aesEncrypt: (Key, Block) -> Block,
    aesDecrypt: (Key, Block) -> Block,
    hmacSha256: (Key, Bytes) -> Tag)

  /** AES decryption under a key inverts AES encryption under the same key. */
  ghost predicate AesInverse(p: Primitives) {
    forall k: Key, b: Block :: p.aesDecrypt(k, p.aesEncrypt(k, b)) == b
  }

  function Xor(a: Block, b: Block): (r: Block)
    ensures forall i :: 0 <= i < BLOCK_LEN ==> r[i] == a[i] ^ b[i]
  {
    seq(BLOCK_LEN, i requires 0 <= i < BLOCK_LEN => a[i] ^ b[i])
  }

  lemma XorCancel(a: Block, b: Block)
    ensures Xor(Xor(a, b), b) == a
  {
    assert forall i :: 0 <= i < BLOCK_LEN ==> Xor(Xor(a, b), b)[i] == a[i];
  }

  /** Length of the whole blocks in a run of `n` bytes. */
  function WholeLen(n: nat): (r: nat)
    ensures r <= n && r % BLOCK_LEN == 0 && n - r < BLOCK_LEN
  {
    n - n % BLOCK_LEN
  }

  /** Whole blocks in front of a run leave its alignment to blocks as it was. */
  lemma AlignedSum(a: nat, b: nat)
    requires a % BLOCK_LEN == 0
    ensures (a + b) % BLOCK_LEN == b % BLOCK_LEN
  {
    var q, r := b / BLOCK_LEN, b % BLOCK_LEN;
    assert a + b == (a / BLOCK_LEN + q) * BLOCK_LEN + r;
  }

  lemma AppendAssoc(a: Bytes, b: Bytes, c: Bytes)
    ensures (a + b) + c == a + (b + c)
  {
  }

  /** The whole blocks at the front of `s`; the rest is a partial block. */
  function Whole(s: Bytes): (r: Bytes)
    ensures |r| <= |s| && |r| % BLOCK_LEN == 0 && |s| - |r| < BLOCK_LEN
    ensures r == s[..|r|]
  {
    s[..WholeLen(|s|)]
  }

  lemma {:induction false} WholeAppend(w: Bytes, rest: Bytes)
    requires |w| % BLOCK_LEN == 0
    ensures Whole(w + rest) == w + Whole(rest)
  {
    AlignedSum(|w|, |rest|);
    assert WholeLen(|w + rest|) == |w| + WholeLen(|rest|);
  }

  /**
   * Feeding `data` to a context holding the partial block `pending`: the
   * whole blocks of the new input are the old ones followed by the whole
   * blocks of `pending + data`, and what is left over is the rest of it.
   */
  lemma FeedStep(fed: Bytes, pending: Bytes, data: Bytes)
    requires fed == Whole(fed) + pending
    ensures var all := pending + data;
      var n := WholeLen(|all|);
      Whole(fed + data) == Whole(fed) + all[..n] && fed + data == Whole(fed + data) + all[n..]
  {
    var all := pending + data;
    var n := WholeLen(|all|);
    assert fed + data == Whole(fed) + all;
    WholeAppend(Whole(fed), all);
    assert all[..n] + all[n..] == all;
  }

  /** CBC encryption of whole blocks, chaining from `chain` (the IV at the start). */
  function CbcEncrypt(p: Primitives, key: Key, chain: Block, m: Bytes): (c: Bytes)
    requires |m| % BLOCK_LEN == 0
    ensures |c| == |m|
    decreases |m|
  {
    if |m| == 0 then []
    else
      var block := p.aesEncrypt(key, Xor(m[..BLOCK_LEN], chain));
      block + CbcEncrypt(p, key, block, m[BLOCK_LEN..])
  }

  /** CBC decryption of whole blocks, chaining from `chain`. */
  function CbcDecrypt(p: Primitives, key: Key, chain: Block, c: Bytes): (m: Bytes)
    requires |c| % BLOCK_LEN == 0
    ensures |m| == |c|
    decreases |c|
  {
    if |c| == 0 then []
    else
      Xor(p.aesDecrypt(key, c[..BLOCK_LEN]), chain)
        + CbcDecrypt(p, key, c[..BLOCK_LEN], c[BLOCK_LEN..])
  }

  /** The chaining value after the ciphertext `c`: its last block, or `chain` if empty. */
  function LastBlock(chain: Block, c: Bytes): (r: Block)
    requires |c| % BLOCK_LEN == 0
    ensures |c| > 0 ==> r == c[|c| - BLOCK_LEN..]
    ensures |c| == 0 ==> r == chain
  {
    if |c| == 0 then chain else c[|c| - BLOCK_LEN..]
  }

  lemma LastBlockAppend(chain: Block, a: Bytes, b: Bytes)
    requires |a| % BLOCK_LEN == 0 && |b| % BLOCK_LEN == 0
    ensures LastBlock(chain, a + b) == LastBlock(LastBlock(chain, a), b)
  {
    if |b| > 0 {
      assert (a + b)[|a + b| - BLOCK_LEN..] == b[|b| - BLOCK_LEN..];
    } else {
      assert a + b == a;
    }
  }

  /** Encrypting `a + b` in one go equals encrypting `a`, then `b` from where `a` left the chain. */
  lemma {:induction false} CbcEncryptAppend(p: Primitives, key: Key, chain: Block, a: Bytes, b: Bytes)
    requires |a| % BLOCK_LEN == 0 && |b| % BLOCK_LEN == 0
    ensures CbcEncrypt(p, key, chain, a + b)
         == CbcEncrypt(p, key, chain, a)
            + CbcEncrypt(p, key, LastBlock(chain, CbcEncrypt(p, key, chain, a)), b)
    decreases |a|
  {
    if |a| == 0 {
      assert a + b == b;
    } else {
      var block := p.aesEncrypt(key, Xor(a[..BLOCK_LEN], chain));
      assert (a + b)[..BLOCK_LEN] == a[..BLOCK_LEN];
      assert (a + b)[BLOCK_LEN..] == a[BLOCK_LEN..] + b;
      CbcEncryptAppend(p, key, block, a[BLOCK_LEN..], b);
      var rest := CbcEncrypt(p, key, block, a[BLOCK_LEN..]);
      LastBlockAppend(chain, block, rest);
    }
  }

  /** Decrypting `a + b` in one go equals decrypting `a`, then `b` chained from the last block of `a`. */
  lemma {:induction false} CbcDecryptAppend(p: Primitives, key: Key, chain: Block, a: Bytes, b: Bytes)
    requires |a| % BLOCK_LEN == 0 && |b| % BLOCK_LEN == 0
    ensures CbcDecrypt(p, key, chain, a + b)
         == CbcDecrypt(p, key, chain, a) + CbcDecrypt(p, key, LastBlock(chain, a), b)
    decreases |a|
  {
    if |a| == 0 {
      assert a + b == b;
    } else {
      assert (a + b)[..BLOCK_LEN] == a[..BLOCK_LEN];
      assert (a + b)[BLOCK_LEN..] == a[BLOCK_LEN..] + b;
      CbcDecryptAppend(p, key, a[..BLOCK_LEN], a[BLOCK_LEN..], b);
      LastBlockAppend(chain, a[..BLOCK_LEN], a[BLOCK_LEN..]);
      assert a[..BLOCK_LEN] + a[BLOCK_LEN..] == a;
    }
  }

  /** CBC decryption undoes CBC encryption from the same chaining value. */
  lemma {:induction false} CbcRoundTrip(p: Primitives, key: Key, chain: Block, m: Bytes)
    requires AesInverse(p)
    requires |m| % BLOCK_LEN == 0
    ensures CbcDecrypt(p, key, chain, CbcEncrypt(p, key, chain, m)) == m
    decreases |m|
  {
    if |m| > 0 {
      var block := p.aesEncrypt(key, Xor(m[..BLOCK_LEN], chain));
      var c := CbcEncrypt(p, key, chain, m);
      assert c[..BLOCK_LEN] == block;
      assert c[BLOCK_LEN..] == CbcEncrypt(p, key, block, m[BLOCK_LEN..]);
      XorCancel(m[..BLOCK_LEN], chain);
      CbcRoundTrip(p, key, block, m[BLOCK_LEN..]);
      assert m[..BLOCK_LEN] + m[BLOCK_LEN..] == m;
    }
  }
}
