/**
 * The lkpb container: a 48-byte header `iv (16) ‖ tag (32)` followed by the
 * AES-256-CBC encryption of the padded plaintext, read and written in
 * 64 KiB chunks. This module gives the one-shot meaning of what
 * `encrypt_file` writes (`Seal`) and of what `decrypt_file` recovers from
 * an authenticated body (`Decode`), and proves how the two relate.
 */
module Container {
  import opened Crypto

  const IV_LEN: nat := 16
  const HEADER_LEN: nat := 48
  const CHUNK_LEN: nat := 65536

  /** The pad length for a final chunk of `n` bytes: the unique value in 1..16 that block-aligns it. */
  function PadLen(n: nat): (p: nat)
    ensures 1 <= p <= BLOCK_LEN
    ensures (n + p) % BLOCK_LEN == 0
  {
    BLOCK_LEN - n % BLOCK_LEN
  }

  /** The PKCS#7-style padding (section 6.3 of RFC 5652) appended to a short chunk of `n` bytes. */
  function Padding(n: nat): (pad: Bytes)
    ensures |pad| == PadLen(n)
    ensures forall i :: 0 <= i < |pad| ==> pad[i] as nat == |pad|
  {
    var p := PadLen(n);
    seq(p, _ => p as byte)
  }

  /** A short final chunk stays within 64 KiB once padded. */
  lemma PadFits(r: nat)
    requires r < CHUNK_LEN
    ensures r + PadLen(r) <= CHUNK_LEN
  {
    var q := r / BLOCK_LEN;
    assert r == q * BLOCK_LEN + r % BLOCK_LEN;
    assert q < 4096;
    assert r + PadLen(r) == (q + 1) * BLOCK_LEN;
  }

  /** A chunk as `encrypt_file` hands it to the cipher: padded only when shorter than 64 KiB. */
  function PadChunk(chunk: Bytes): (r: Bytes)
    ensures |chunk| < CHUNK_LEN ==> r == chunk + Padding(|chunk|) && |r| % BLOCK_LEN == 0
    ensures |chunk| >= CHUNK_LEN ==> r == chunk
  {
    if |chunk| < CHUNK_LEN then chunk + Padding(|chunk|) else chunk
  }

  /**
   * Everything `encrypt_file` feeds the cipher for plaintext `m`: the plaintext,
   * plus padding after a short final chunk. A length that is a multiple of
   * 64 KiB (0 included) has no short final chunk and so gets no padding.
   */
  function Padded(m: Bytes): (r: Bytes)
    ensures |m| % CHUNK_LEN == 0 ==> r == m
    ensures |m| % CHUNK_LEN != 0 ==> r == m + Padding(|m| % CHUNK_LEN)
  {
    if |m| % CHUNK_LEN == 0 then m else m + Padding(|m| % CHUNK_LEN)
  }

  /** Every whole number of chunks is a whole number of blocks. */
  lemma ChunksAligned(k: nat)
    ensures (k * CHUNK_LEN) % CHUNK_LEN == 0 && (k * CHUNK_LEN) % BLOCK_LEN == 0
    ensures (k * CHUNK_LEN) / CHUNK_LEN == k
  {
    var n := k * CHUNK_LEN;
    assert n == k * 65536 && n == (k * 4096) * 16;
    assert n % 65536 == 0 && n / 65536 == k && n % 16 == 0;
  }

  /** A length and its remainder after whole chunks agree modulo the block size. */
  lemma ChunkModBlock(n: nat)
    ensures (n % CHUNK_LEN) % BLOCK_LEN == n % BLOCK_LEN
  {
    var q, r := n / CHUNK_LEN, n % CHUNK_LEN;
    assert n == q * CHUNK_LEN + r;
    ChunksAligned(q);
    AlignedSum(q * CHUNK_LEN, r);
  }

  /** Rounding a length up to the next whole block past it gives a whole number of blocks. */
  lemma RoundUp(n: nat)
    ensures (n - n % BLOCK_LEN + BLOCK_LEN) % BLOCK_LEN == 0
  {
    assert n - n % BLOCK_LEN + BLOCK_LEN == (n / BLOCK_LEN + 1) * BLOCK_LEN;
  }

  /** The ciphertext body is exactly as long as the padded plaintext, and always block-aligned. */
  lemma PaddedLength(m: Bytes)
    ensures |Padded(m)| == if |m| % CHUNK_LEN == 0 then |m| else |m| - |m| % BLOCK_LEN + BLOCK_LEN
    ensures |Padded(m)| % BLOCK_LEN == 0
  {
    var n := |m|;
    ChunkModBlock(n);
    if n % CHUNK_LEN != 0 {
      assert |Padded(m)| == n + PadLen(n % CHUNK_LEN);
      assert PadLen(n % CHUNK_LEN) == BLOCK_LEN - n % BLOCK_LEN;
      RoundUp(n);
    }
  }

  /**
   * One step of the read loop of `encrypt_file`: at a chunk boundary before the
   * end, the next read returns up to 64 KiB, and feeding it (padded if short)
   * extends what was fed for the prefix read so far.
   */
  lemma PaddedStep(m: Bytes, pos: nat, c: nat)
    requires pos < |m| && pos % CHUNK_LEN == 0
    requires c == if |m| - pos < CHUNK_LEN then |m| - pos else CHUNK_LEN
    ensures Padded(m[..pos]) + PadChunk(m[pos..pos + c]) == Padded(m[..pos + c])
    ensures pos + c < |m| ==> (pos + c) % CHUNK_LEN == 0
  {
    var q := pos / CHUNK_LEN;
    assert pos == q * CHUNK_LEN;
    assert Padded(m[..pos]) == m[..pos];
    assert m[..pos] + m[pos..pos + c] == m[..pos + c];
    if c < CHUNK_LEN {
      assert (pos + c) % CHUNK_LEN == c;
    } else {
      assert (pos + c) % CHUNK_LEN == 0;
    }
  }

  /** The ciphertext body `encrypt_file` writes after the header. */
  function SealedBody(p: Primitives, key: Key, iv: Block, m: Bytes): (body: Bytes)
    ensures |body| == |Padded(m)| && |body| % BLOCK_LEN == 0
  {
    PaddedLength(m);
    CbcEncrypt(p, key, iv, Padded(m))
  }

  /** The tag `encrypt_file` writes: HMAC over the IV followed by the whole body. */
  function SealedTag(p: Primitives, key: Key, iv: Block, m: Bytes): (t: Tag)
    ensures Authentic(p, key, iv + t + SealedBody(p, key, iv, m))
  {
    var body := SealedBody(p, key, iv, m);
    var mac := p.hmacSha256(key, iv + body);
    assert (iv + mac + body)[..IV_LEN] == iv;
    assert (iv + mac + body)[IV_LEN..HEADER_LEN] == mac;
    assert (iv + mac + body)[HEADER_LEN..] == body;
    mac
  }

  /** The committed container for plaintext `m`. */
  function Seal(p: Primitives, key: Key, iv: Block, m: Bytes): (c: Bytes)
    ensures |c| == HEADER_LEN + |Padded(m)|
    ensures c[..IV_LEN] == iv
    ensures c[IV_LEN..HEADER_LEN] == SealedTag(p, key, iv, m)
    ensures c[HEADER_LEN..] == SealedBody(p, key, iv, m)
  {
    iv + SealedTag(p, key, iv, m) + SealedBody(p, key, iv, m)
  }

  /** The IV field as `decrypt_file` reads it: the first 16 bytes, or the whole file when shorter. */
  function IvField(c: Bytes): (r: Bytes)
    ensures |r| <= IV_LEN && |r| <= |c| && r == c[..|r|]
    ensures |r| < IV_LEN ==> r == c
  {
    if |c| < IV_LEN then c else c[..IV_LEN]
  }

  /** The stored tag as `decrypt_file` reads it: the next at most 32 bytes, all 32 only with a full header. */
  function TagField(c: Bytes): (r: Bytes)
    ensures |r| <= TAG_LEN
    ensures |r| == TAG_LEN <==> |c| >= HEADER_LEN
    ensures |c| < HEADER_LEN ==> IvField(c) + r == c
  {
    if |c| < IV_LEN then [] else if |c| < HEADER_LEN then c[IV_LEN..] else c[IV_LEN..HEADER_LEN]
  }

  /** Everything after the header (empty when the header itself is short). */
  function BodyField(c: Bytes): (r: Bytes)
    ensures |c| >= HEADER_LEN ==> c[..HEADER_LEN] + r == c
    ensures |c| < HEADER_LEN ==> r == []
  {
    if |c| < HEADER_LEN then [] else c[HEADER_LEN..]
  }

  /** `h.verify(saved_mac)` succeeds: the HMAC of IV and body equals the stored tag. */
  predicate Authentic(p: Primitives, key: Key, c: Bytes): (ok: bool)
    ensures ok <==> |c| >= HEADER_LEN && p.hmacSha256(key, c[..IV_LEN] + c[HEADER_LEN..]) == c[IV_LEN..HEADER_LEN]
  {
    |c| >= IV_LEN && p.hmacSha256(key, c[..IV_LEN] + BodyField(c)) == TagField(c)
  }

  /** The three fields `decrypt_file` reads split any file, however short, without gap or overlap. */
  lemma FieldsSplit(c: Bytes)
    ensures IvField(c) + TagField(c) + BodyField(c) == c
  {
    if |c| >= HEADER_LEN {
      assert c == c[..IV_LEN] + c[IV_LEN..HEADER_LEN] + c[HEADER_LEN..];
    }
  }

  /** A container that authenticates has a complete header. */
  lemma AuthenticHeader(p: Primitives, key: Key, c: Bytes)
    requires Authentic(p, key, c)
    ensures |c| >= HEADER_LEN
    ensures c == IvField(c) + TagField(c) + BodyField(c)
  {
    assert |TagField(c)| == TAG_LEN;
    assert c == c[..IV_LEN] + c[IV_LEN..HEADER_LEN] + c[HEADER_LEN..];
  }

  /** A container produced by `Seal` authenticates under the key that sealed it. */
  lemma SealAuthentic(p: Primitives, key: Key, iv: Block, m: Bytes)
    ensures Authentic(p, key, Seal(p, key, iv, m))
    ensures BodyField(Seal(p, key, iv, m)) == SealedBody(p, key, iv, m)
    ensures IvField(Seal(p, key, iv, m)) == iv
  {
  }

  /** Changing only stored tag bytes of an authentic container makes it fail verification. */
  lemma TagTamperDetected(p: Primitives, key: Key, c: Bytes, c': Bytes)
    requires Authentic(p, key, c)
    requires |c'| == |c| && c' != c
    requires forall i :: 0 <= i < |c| && !(IV_LEN <= i < HEADER_LEN) ==> c'[i] == c[i]
    ensures !Authentic(p, key, c')
  {
    AuthenticHeader(p, key, c);
    assert c'[..IV_LEN] == c[..IV_LEN];
    assert BodyField(c') == BodyField(c);
  }

  /**
   * The number of body bytes `decrypt_file` writes before the final chunk: all
   * chunks but the last, where the last holds between 1 and 64 KiB.
   */
  function LeadLen(n: nat): (r: nat)
    ensures r % CHUNK_LEN == 0 && r % BLOCK_LEN == 0 && r <= n
    ensures n > 0 ==> 0 < n - r <= CHUNK_LEN
    ensures n == 0 ==> r == 0
    ensures n > 0 && n % CHUNK_LEN == 0 ==> n - r == CHUNK_LEN
    ensures n % CHUNK_LEN != 0 ==> n - r == n % CHUNK_LEN
  {
    var whole := n / CHUNK_LEN;
    assert n == whole * CHUNK_LEN + n % CHUNK_LEN;
    if n % CHUNK_LEN != 0 then
      ChunksAligned(whole);
      n - n % CHUNK_LEN
    else if n == 0 then 0
    else
      assert n - CHUNK_LEN == (whole - 1) * CHUNK_LEN;
      ChunksAligned(whole - 1);
      n - CHUNK_LEN
  }

  /** Cutting off the lead leaves the block alignment of the length as it was. */
  lemma LastAligned(n: nat)
    ensures (n - LeadLen(n)) % BLOCK_LEN == n % BLOCK_LEN
  {
    ChunkModBlock(n);
  }

  /** The lead is a whole number of chunks. */
  lemma LeadChunks(n: nat)
    ensures LeadLen(n) / CHUNK_LEN * CHUNK_LEN == LeadLen(n)
  {
    var whole := n / CHUNK_LEN;
    assert n == whole * CHUNK_LEN + n % CHUNK_LEN;
    if n % CHUNK_LEN != 0 {
      ChunksAligned(whole);
    } else if n > 0 {
      assert LeadLen(n) == (whole - 1) * CHUNK_LEN;
      ChunksAligned(whole - 1);
    }
  }

  /** The lead length is determined by the final chunk being 1..64 KiB long. */
  lemma LeadLenAfter(lead: nat, last: nat)
    requires lead % CHUNK_LEN == 0 && 0 < last <= CHUNK_LEN
    ensures LeadLen(lead + last) == lead
  {
    var q := lead / CHUNK_LEN;
    assert lead == q * CHUNK_LEN;
    if last < CHUNK_LEN {
      assert (lead + last) / CHUNK_LEN == q;
      assert (lead + last) % CHUNK_LEN == last;
    } else {
      assert lead + last == (q + 1) * CHUNK_LEN;
      ChunksAligned(q + 1);
    }
  }

  /**
   * The pad strip of lkpb.py:121-122: when the last byte `p` is in 1..16,
   * drop `p` trailing bytes (Python's `[:-p]`, which yields nothing when `p`
   * exceeds the length); otherwise keep every byte.
   */
  function StripPad(f: Bytes): (r: Bytes)
    requires |f| > 0
    ensures |r| <= |f| && r == f[..|r|]
    ensures 1 <= f[|f| - 1] <= 16 ==> |r| == if f[|f| - 1] as nat <= |f| then |f| - f[|f| - 1] as nat else 0
    ensures !(1 <= f[|f| - 1] <= 16) ==> r == f
  {
    var p := f[|f| - 1] as nat;
    if 0 < p <= BLOCK_LEN then f[..if p <= |f| then |f| - p else 0] else f
  }

  /** Stripping undoes padding. */
  lemma StripPadding(m: Bytes)
    ensures StripPad(m + Padding(|m|)) == m
  {
    var f := m + Padding(|m|);
    assert f[|f| - 1] as nat == PadLen(|m|);
    assert f[..|m|] == m;
  }

  /** The strip only touches the final chunk, so it commutes with prepending the lead. */
  lemma StripPadPrefix(a: Bytes, b: Bytes)
    requires |b| >= BLOCK_LEN
    ensures StripPad(a + b) == a + StripPad(b)
  {
    var p := b[|b| - 1];
    assert (a + b)[|a + b| - 1] == p;
    if 1 <= p <= 16 {
      assert (a + b)[..|a + b| - p as nat] == a + b[..|b| - p as nat];
    }
  }

  /** What `decrypt_file` makes of an authenticated body. */
  datatype Decoding =
    | Recovered(plain: Bytes)   // the pad strip ran and the final part was written
    | Unaligned(partial: Bytes) // `finalize()` raised; the lead chunks were already written
    | EmptyPart                 // `final_part[-1]` raised on an empty body

  /**
   * One-shot meaning of the lookahead decryption pass (lkpb.py:110-122): the
   * lead chunks are decrypted and written as they are, and only the final
   * chunk's plaintext goes through the pad strip. `finalize()` fails exactly
   * on an unaligned body, once the lead chunks are written; the final-part
   * error is exactly the empty body.
   */
  function Decode(p: Primitives, key: Key, iv: Block, body: Bytes): (d: Decoding)
    ensures d.Unaligned? <==> |body| % BLOCK_LEN != 0
    ensures d.EmptyPart? <==> |body| == 0
    ensures d.Unaligned? ==> |d.partial| == LeadLen(|body|)
  {
    var lead := LeadLen(|body|);
    LastAligned(|body|);
    var leadPlain := CbcDecrypt(p, key, iv, body[..lead]);
    if |body| % BLOCK_LEN != 0 then Unaligned(leadPlain)
    else if |body| == 0 then EmptyPart
    else Recovered(leadPlain + StripPad(CbcDecrypt(p, key, LastBlock(iv, body[..lead]), body[lead..])))
  }

  /** A recovered plaintext is the body's length less at most one block of padding. */
  lemma DecodeShape(p: Primitives, key: Key, iv: Block, body: Bytes)
    ensures Decode(p, key, iv, body).Recovered? ==>
              |body| - BLOCK_LEN <= |Decode(p, key, iv, body).plain| <= |body|
  {
    var lead := LeadLen(|body|);
    if |body| % BLOCK_LEN == 0 && |body| > 0 {
      assert |body| - lead >= BLOCK_LEN;
    }
  }

  /** The padded plaintext splits into the unpadded lead chunks and one padded final chunk of 16..64 KiB. */
  lemma PaddedSplit(m: Bytes)
    requires |m| > 0
    ensures var lead := LeadLen(|m|);
      Padded(m) == m[..lead] + PadChunk(m[lead..]) &&
      0 < |PadChunk(m[lead..])| <= CHUNK_LEN && |PadChunk(m[lead..])| % BLOCK_LEN == 0 &&
      m[..lead] + m[lead..] == m
  {
    var lead := LeadLen(|m|);
    var r := |m| - lead;
    assert m == m[..lead] + m[lead..];
    if r < CHUNK_LEN {
      PadFits(r);
    } else {
      ChunksAligned(1);
    }
  }

  /** Decoding the encryption of lead chunks `x` and a final chunk `t` gives `x` and the stripped `t`. */
  lemma DecodeEncrypted(p: Primitives, key: Key, iv: Block, x: Bytes, t: Bytes)
    requires AesInverse(p)
    requires |x| % CHUNK_LEN == 0 && |x| % BLOCK_LEN == 0
    requires 0 < |t| <= CHUNK_LEN && |t| % BLOCK_LEN == 0 && |x + t| % BLOCK_LEN == 0
    ensures Decode(p, key, iv, CbcEncrypt(p, key, iv, x + t)) == Recovered(x + StripPad(t))
  {
    var xc := CbcEncrypt(p, key, iv, x);
    var chain := LastBlock(iv, xc);
    var tc := CbcEncrypt(p, key, chain, t);
    CbcEncryptAppend(p, key, iv, x, t);
    var body := xc + tc;
    AlignedSum(|x|, |t|);
    assert |body| == |x| + |t|;
    LeadLenAfter(|x|, |t|);
    assert body[..|x|] == xc && body[|x|..] == tc;
    DecodeAligned(p, key, iv, body, |x|);
    CbcRoundTrip(p, key, iv, x);
    CbcRoundTrip(p, key, chain, t);
  }

  /** Decoding a non-empty aligned body: the lead, then the stripped final chunk chained from the lead. */
  lemma DecodeAligned(p: Primitives, key: Key, iv: Block, body: Bytes, lead: nat)
    requires |body| % BLOCK_LEN == 0 && |body| > 0 && lead == LeadLen(|body|)
    requires (|body| - lead) % BLOCK_LEN == 0
    ensures Decode(p, key, iv, body) ==
      Recovered(CbcDecrypt(p, key, iv, body[..lead]) + StripPad(CbcDecrypt(p, key, LastBlock(iv, body[..lead]), body[lead..])))
  {
    LastAligned(|body|);
  }

  /** A non-empty plaintext is sealed as its lead chunks and its padded final chunk. */
  lemma DecodeSealedSplit(p: Primitives, key: Key, iv: Block, m: Bytes, lead: nat)
    requires AesInverse(p)
    requires |m| > 0 && lead == LeadLen(|m|)
    ensures Decode(p, key, iv, SealedBody(p, key, iv, m)) == Recovered(m[..lead] + StripPad(PadChunk(m[lead..])))
    ensures m[..lead] + m[lead..] == m
  {
    PaddedSplit(m);
    PaddedLength(m);
    var x, t := m[..lead], PadChunk(m[lead..]);
    assert |x| == lead && |x + t| % BLOCK_LEN == 0;
    assert SealedBody(p, key, iv, m) == CbcEncrypt(p, key, iv, x + t);
    DecodeEncrypted(p, key, iv, x, t);
  }

  /** A plaintext with a short final chunk comes back whole. */
  lemma DecodeSealedShort(p: Primitives, key: Key, iv: Block, m: Bytes)
    requires AesInverse(p)
    requires |m| % CHUNK_LEN != 0
    ensures Decode(p, key, iv, SealedBody(p, key, iv, m)) == Recovered(m)
  {
    var lead := LeadLen(|m|);
    DecodeSealedSplit(p, key, iv, m, lead);
    var x, y := m[..lead], m[lead..];
    assert |y| < CHUNK_LEN;
    assert PadChunk(y) == y + Padding(|y|);
    StripPadding(y);
  }

  /** A plaintext of whole chunks comes back with its final chunk stripped as if padded. */
  lemma DecodeSealedWhole(p: Primitives, key: Key, iv: Block, m: Bytes)
    requires AesInverse(p)
    requires |m| > 0 && |m| % CHUNK_LEN == 0
    ensures Decode(p, key, iv, SealedBody(p, key, iv, m)) == Recovered(StripPad(m))
  {
    var lead := LeadLen(|m|);
    DecodeSealedSplit(p, key, iv, m, lead);
    var x, y := m[..lead], m[lead..];
    assert |y| == CHUNK_LEN;
    assert PadChunk(y) == y;
    StripPadPrefix(x, y);
  }

  /** What decoding a sealed body gives, by plaintext length. */
  lemma DecodeSealed(p: Primitives, key: Key, iv: Block, m: Bytes)
    requires AesInverse(p)
    ensures |m| == 0 ==> Decode(p, key, iv, SealedBody(p, key, iv, m)) == EmptyPart
    ensures |m| % CHUNK_LEN != 0 ==> Decode(p, key, iv, SealedBody(p, key, iv, m)) == Recovered(m)
    ensures |m| > 0 && |m| % CHUNK_LEN == 0 ==>
              Decode(p, key, iv, SealedBody(p, key, iv, m)) == Recovered(StripPad(m))
  {
    if |m| % CHUNK_LEN != 0 {
      DecodeSealedShort(p, key, iv, m);
    } else if |m| > 0 {
      DecodeSealedWhole(p, key, iv, m);
    }
  }

  /**
   * The round trip through the container gives the plaintext back exactly when the
   * plaintext length is not a multiple of 64 KiB, or its last byte is not a pad value.
   */
  lemma RoundTripIff(p: Primitives, key: Key, iv: Block, m: Bytes)
    requires AesInverse(p)
    ensures Decode(p, key, iv, SealedBody(p, key, iv, m)) == Recovered(m)
        <==> |m| % CHUNK_LEN != 0 || (|m| > 0 && !(1 <= m[|m| - 1] <= 16))
  {
    DecodeSealed(p, key, iv, m);
    if |m| > 0 && |m| % CHUNK_LEN == 0 && 1 <= m[|m| - 1] <= 16 {
      assert |StripPad(m)| < |m|;
    }
  }

  /** The concrete scenario of a three-byte plaintext "abc": thirteen pad bytes of value 13. */
  lemma ThreeBytePlaintext()
    ensures Padded([0x61, 0x62, 0x63]) == [0x61, 0x62, 0x63] + seq(13, _ => 13)
    ensures |Padded([0x61, 0x62, 0x63])| == BLOCK_LEN
  {
  }
}
