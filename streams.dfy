/**
 * The streaming contexts lkpb.py drives: `Cipher(...).encryptor()`,
 * `Cipher(...).decryptor()` (AES-256-CBC, no padding) and `hmac.HMAC`.
 * Each keeps real state (the chaining block and the partial block not yet
 * processed); the ghost field `fed` is every byte passed to `Update` so far,
 * and the contracts tie the output to a one-shot function of `fed`.
 */
module Streams {
  import opened Wrappers
  import opened Crypto

  /** A CBC encryption context: `update` emits every complete block, `finalize` rejects a partial one. */
  class CbcEncryptor {
    const prims: Primitives
    const key: Key
    const iv: Block
    var chain: Block
    var pending: Bytes
    ghost var fed: Bytes

    ghost predicate Valid()
      reads this
    {
      fed == Whole(fed) + pending &&
      chain == LastBlock(iv, CbcEncrypt(prims, key, iv, Whole(fed)))
    }

    /** Everything this context has emitted so far. */
    ghost function Output(): Bytes
      reads this
      requires Valid()
    {
      CbcEncrypt(prims, key, iv, Whole(fed))
    }

    constructor (prims: Primitives, key: Key, iv: Block)
      ensures Valid()
      ensures this.prims == prims && this.key == key && this.iv == iv
      ensures fed == [] && Output() == []
    {
      this.prims, this.key, this.iv := prims, key, iv;
      chain, pending := iv, [];
      fed := [];
    }

    method Update(data: Bytes) returns (out: Bytes)
      requires Valid()
      modifies this
      ensures Valid()
      ensures fed == old(fed) + data
      ensures Output() == old(Output()) + out
    {
      ghost var done := Whole(fed);
      var all := pending + data;
      var n := WholeLen(|all|);
      FeedStep(fed, pending, data);
      out := CbcEncrypt(prims, key, chain, all[..n]);
      CbcEncryptAppend(prims, key, iv, done, all[..n]);
      LastBlockAppend(iv, CbcEncrypt(prims, key, iv, done), out);
      chain := LastBlock(chain, out);
      pending := all[n..];
      fed := fed + data;
    }

    /** `finalize()`: no bytes when the input was block-aligned, otherwise the library raises. */
    method Finalize() returns (tail: Option<Bytes>)
      requires Valid()
      ensures tail == if |fed| % BLOCK_LEN == 0 then Some([]) else None
    {
      AlignedSum(|Whole(fed)|, |pending|);
      tail := if pending == [] then Some([]) else None;
    }
  }

  /** A CBC decryption context, the mirror image of `CbcEncryptor`. */
  class CbcDecryptor {
    const prims: Primitives
    const key: Key
    const iv: Block
    var chain: Block
    var pending: Bytes
    ghost var fed: Bytes

    ghost predicate Valid()
      reads this
    {
      fed == Whole(fed) + pending &&
      chain == LastBlock(iv, Whole(fed))
    }

    ghost function Output(): Bytes
      reads this
      requires Valid()
    {
      CbcDecrypt(prims, key, iv, Whole(fed))
    }

    constructor (prims: Primitives, key: Key, iv: Block)
      ensures Valid()
      ensures this.prims == prims && this.key == key && this.iv == iv
      ensures fed == [] && Output() == []
    {
      this.prims, this.key, this.iv := prims, key, iv;
      chain, pending := iv, [];
      fed := [];
    }

    method Update(data: Bytes) returns (out: Bytes)
      requires Valid()
      modifies this
      ensures Valid()
      ensures fed == old(fed) + data
      ensures Output() == old(Output()) + out
    {
      ghost var done := Whole(fed);
      var all := pending + data;
      var n := WholeLen(|all|);
      FeedStep(fed, pending, data);
      out := CbcDecrypt(prims, key, chain, all[..n]);
      CbcDecryptAppend(prims, key, iv, done, all[..n]);
      LastBlockAppend(iv, done, all[..n]);
      chain := LastBlock(chain, all[..n]);
      pending := all[n..];
      fed := fed + data;
    }

    /**
     * `finalize()`: as for `CbcEncryptor`, no bytes when the ciphertext was
     * block-aligned, otherwise the library raises; with no padding the
     * decryptor holds nothing back.
     */
    method Finalize() returns (tail: Option<Bytes>)
      requires Valid()
      ensures tail == if |fed| % BLOCK_LEN == 0 then Some([]) else None
    {
      AlignedSum(|Whole(fed)|, |pending|);
      tail := if pending == [] then Some([]) else None;
    }
  }

  /** A streaming HMAC-SHA-256 context; its state is the message fed so far. */
  class HmacSha256 {
    const prims: Primitives
    const key: Key
    var fed: Bytes

    constructor (prims: Primitives, key: Key)
      ensures this.prims == prims && this.key == key && fed == []
    {
      this.prims, this.key := prims, key;
      fed := [];
    }

    method Update(data: Bytes)
      modifies this
      ensures fed == old(fed) + data
    {
      fed := fed + data;
    }

    /** The tag of the whole message fed so far (`finalize()`). */
    function Finalize(): Tag
      reads this
    {
      prims.hmacSha256(key, fed)
    }

    /** `verify(tag)`: succeeds exactly when the tag of the message equals `tag`. */
    method Verify(tag: Bytes) returns (ok: bool)
      ensures ok <==> prims.hmacSha256(key, fed) == tag
    {
      ok := Finalize() == tag;
    }
  }
}
