/**
 * `encrypt_file` and `decrypt_file` of lkpb.py, with the global
 * `stats_count` / `stats_size` counters. Each method streams 64 KiB chunks
 * through the cipher and HMAC contexts exactly as lkpb.py does, and is
 * proved against the one-shot container functions of `Container`.
 *
 * An I/O error is modelled by `fault`: when it is `Some(k)`, the k-th call
 * (counting from 0) to `write` on the operation's output file raises.
 */
module Lkpb {
  import opened Wrappers
  import opened Crypto
  import opened Streams
  import opened Container
  import opened Paths
  import opened Files

  datatype Error = NoSuchFile | WriteFailed | NotBlockAligned | EmptyFinalPart

  /** How one call ends: returned early, finished, or stopped by a caught exception. */
  datatype Outcome = Skipped | ShortHeader | IntegrityFailure | Done | Failed(error: Error)

  /** The global counters; only a completed file moves them. */
  class Statistics {
    var count: nat
    var size: nat

    constructor ()
      ensures count == 0 && size == 0
    {
      count, size := 0, 0;
    }

    method Record(bytes: nat)
      modifies this
      ensures count == old(count) + 1 && size == old(size) + bytes
    {
      count := count + 1;
      size := size + bytes;
    }
  }

  /** How many non-empty 64 KiB reads a file of `n` bytes yields. */
  function ChunkCount(n: nat): nat
  {
    (n + CHUNK_LEN - 1) / CHUNK_LEN
  }

  /** Reading one more chunk at a chunk boundary. */
  lemma ChunkStep(pos: nat, c: nat)
    requires pos % CHUNK_LEN == 0 && 0 < c <= CHUNK_LEN
    ensures ChunkCount(pos + c) == ChunkCount(pos) + 1
    ensures c < CHUNK_LEN ==> (pos + c) % CHUNK_LEN == c
    ensures c == CHUNK_LEN ==> (pos + c) % CHUNK_LEN == 0
  {
    var q := pos / CHUNK_LEN;
    assert pos == q * CHUNK_LEN;
    assert ChunkCount(pos) == q;
    assert ChunkCount(pos + c) == q + 1;
  }

  /** The chunk boundaries are evenly spaced. */
  lemma NextBoundary(w: nat)
    ensures (w + 1) * CHUNK_LEN == w * CHUNK_LEN + CHUNK_LEN
  {
  }

  lemma ChunkCountMonotone(a: nat, b: nat)
    requires a <= b
    ensures ChunkCount(a) <= ChunkCount(b)
  {
  }

  /**
   * Reading the next chunk of `plain` at a chunk boundary: one more chunk
   * counted, padding it extends the padded prefix, and only a short chunk
   * ends off a boundary.
   */
  lemma NextChunk(plain: Bytes, pos: nat)
    requires pos <= |plain| && (pos < |plain| ==> pos % CHUNK_LEN == 0)
    ensures var chunk := Read(plain, pos, CHUNK_LEN);
      (chunk == [] <==> pos == |plain|) &&
      (chunk != [] ==>
        var next := pos + |chunk|;
        next <= |plain| && (next < |plain| ==> next % CHUNK_LEN == 0) &&
        ChunkCount(next) == ChunkCount(pos) + 1 && ChunkCount(next) <= ChunkCount(|plain|) &&
        Padded(plain[..pos]) + PadChunk(chunk) == Padded(plain[..next]))
  {
    var chunk := Read(plain, pos, CHUNK_LEN);
    if chunk != [] {
      ChunkStep(pos, |chunk|);
      ChunkCountMonotone(pos + |chunk|, |plain|);
      PaddedStep(plain, pos, |chunk|);
    }
  }

  /** Number of `write` calls a complete encryption makes: placeholder, one per chunk, finalize, header. */
  function EncryptWrites(n: nat): nat
  {
    ChunkCount(n) + 3
  }

  lemma RemoveUpdated(m: map<Path, Bytes>, k: Path, v: Bytes)
    ensures m[k := v] - {k} == m - {k}
  {
  }

  /** Committing: the temporary file becomes the container and the plaintext goes. */
  lemma CommitEncrypted(m: map<Path, Bytes>, path: Path, sealed: Bytes)
    requires path in m
    ensures ((m[TempName(path) := sealed] - {TempName(path)})[EncryptedName(path) := sealed]) - {path}
         == (m - {path, TempName(path)})[EncryptedName(path) := sealed]
  {
  }

  /** `encryptor.update` of one chunk, then `h.update` of the ciphertext it returns. */
  method FeedChunk(enc: CbcEncryptor, h: HmacSha256, block: Bytes) returns (ct: Bytes)
    requires enc.Valid() && h.fed == enc.iv + enc.Output()
    modifies enc, h
    ensures enc.Valid() && enc.fed == old(enc.fed) + block && h.fed == enc.iv + enc.Output()
    ensures enc.Output() == old(enc.Output()) + ct
  {
    ghost var before := enc.Output();
    ct := enc.Update(block);
    h.Update(ct);
    AppendAssoc(enc.iv, before, ct);
  }

  /**
   * One chunk of `encrypt_file`'s loop after the read: `encryptor.update`,
   * `h.update` of its output, then `f_out.write` of it, which raises when `fail`.
   */
  method AppendChunk(fs: FileSystem, enc: CbcEncryptor, h: HmacSha256, tmp: Path, block: Bytes, fail: bool)
    returns (ok: bool)
    requires enc.Valid() && h.fed == enc.iv + enc.Output()
    requires tmp in fs.files && fs.files[tmp] == Zeros(HEADER_LEN) + enc.Output()
    modifies fs, enc, h
    ensures enc.Valid() && enc.fed == old(enc.fed) + block && h.fed == enc.iv + enc.Output()
    ensures ok == !fail
    ensures ok ==> fs.files == old(fs.files)[tmp := Zeros(HEADER_LEN) + enc.Output()]
    ensures !ok ==> fs.files == old(fs.files)
  {
    var cur := fs.files[tmp];
    ghost var before := enc.Output();
    var ct := FeedChunk(enc, h, block);
    if fail {
      return false;
    }
    AppendAssoc(Zeros(HEADER_LEN), before, ct);
    OverwriteEnd(cur, ct);
    fs.Write(tmp, |cur|, ct);
    return true;
  }

  /**
   * One round of the chunk loop of `encrypt_file`: read up to 64 KiB of `path`
   * at `pos`; if anything was read, pad a short chunk, encrypt, feed the
   * ciphertext to the HMAC and append it to `tmp` as write call `writes`.
   */
  method EncryptNextChunk(fs: FileSystem, enc: CbcEncryptor, h: HmacSha256, path: Path, tmp: Path,
                          pos: nat, writes: nat, fault: Option<nat>) returns (more: bool, ok: bool, next: nat)
    requires path in fs.files && tmp in fs.files && path != tmp
    requires pos <= |fs.files[path]| && (pos < |fs.files[path]| ==> pos % CHUNK_LEN == 0)
    requires enc.Valid() && enc.fed == Padded(fs.files[path][..pos]) && h.fed == enc.iv + enc.Output()
    requires fs.files[tmp] == Zeros(HEADER_LEN) + enc.Output()
    requires writes == 1 + ChunkCount(pos) && (fault.None? || fault.value >= writes)
    modifies fs, enc, h
    ensures enc.Valid() && h.fed == enc.iv + enc.Output()
    ensures !more ==> ok && pos == |old(fs.files[path])| && fs.files == old(fs.files) && enc.fed == old(enc.fed)
    ensures more && !ok ==>
              fault.Some? && fault.value < 1 + ChunkCount(|old(fs.files[path])|) &&
              tmp in fs.files && fs.files == old(fs.files)[tmp := fs.files[tmp]]
    ensures more && ok ==>
              var plain := old(fs.files[path]);
              pos < next <= |plain| && (next < |plain| ==> next % CHUNK_LEN == 0) &&
              enc.fed == Padded(plain[..next]) &&
              fs.files == old(fs.files)[tmp := Zeros(HEADER_LEN) + enc.Output()] &&
              writes + 1 == 1 + ChunkCount(next) && (fault.None? || fault.value >= writes + 1)
  {
    var plain := fs.files[path];
    var chunk := Read(plain, pos, CHUNK_LEN);
    NextChunk(plain, pos);
    if chunk == [] {
      return false, true, pos;
    }
    next := pos + |chunk|;
    assert enc.fed + PadChunk(chunk) == Padded(plain[..next]);
    assert writes == ChunkCount(next) && writes <= ChunkCount(|plain|);
    ok := AppendChunk(fs, enc, h, tmp, PadChunk(chunk), fault == Some(writes));
    more := true;
  }

  /**
   * The chunk loop of `encrypt_file`, until a read comes back empty. Write
   * call 0 (the placeholder) is already done.
   */
  method EncryptChunks(fs: FileSystem, enc: CbcEncryptor, h: HmacSha256, path: Path, tmp: Path,
                       fault: Option<nat>) returns (ok: bool)
    requires path in fs.files && tmp in fs.files && path != tmp
    requires enc.Valid() && enc.fed == [] && h.fed == enc.iv && fs.files[tmp] == Zeros(HEADER_LEN)
    requires fault.None? || fault.value >= 1
    modifies fs, enc, h
    ensures enc.Valid()
    ensures ok == !(fault.Some? && fault.value < 1 + ChunkCount(|old(fs.files[path])|))
    ensures ok ==> enc.fed == Padded(old(fs.files[path])) && h.fed == enc.iv + enc.Output()
    ensures ok ==> fs.files == old(fs.files)[tmp := Zeros(HEADER_LEN) + enc.Output()]
    ensures !ok ==> tmp in fs.files && fs.files == old(fs.files)[tmp := fs.files[tmp]]
  {
    var plain := fs.files[path];
    var pos := 0;
    var writes := 1;
    assert plain[..0] == [];
    assert Zeros(HEADER_LEN) + enc.Output() == fs.files[tmp];
    while true
      invariant pos <= |plain| && (pos < |plain| ==> pos % CHUNK_LEN == 0)
      invariant enc.Valid() && enc.fed == Padded(plain[..pos])
      invariant h.fed == enc.iv + enc.Output()
      invariant fs.files == old(fs.files)[tmp := Zeros(HEADER_LEN) + enc.Output()]
      invariant writes == 1 + ChunkCount(pos)
      invariant fault.None? || fault.value >= writes
      decreases |plain| - pos
    {
      var more, appended, next := EncryptNextChunk(fs, enc, h, path, tmp, pos, writes, fault);
      if !more {
        break;
      }
      if !appended {
        return false;
      }
      writes := writes + 1;
      pos := next;
    }
    assert plain[..pos] == plain;
    return true;
  }

  /**
   * After the chunk loop: write `finalize()`'s output (nothing, for aligned
   * input), then seek to 0 and write `iv + mac` over the placeholder.
   * `writes` is the index of the first of these two write calls.
   */
  method FinishContainer(fs: FileSystem, enc: CbcEncryptor, h: HmacSha256, tmp: Path,
                         writes: nat, fault: Option<nat>) returns (ok: bool)
    requires enc.Valid() && |enc.fed| % BLOCK_LEN == 0 && h.fed == enc.iv + enc.Output()
    requires tmp in fs.files && fs.files[tmp] == Zeros(HEADER_LEN) + enc.Output()
    requires fault.None? || fault.value >= writes
    modifies fs
    ensures ok == !(fault.Some? && fault.value < writes + 2)
    ensures ok ==> fs.files == old(fs.files)[tmp := enc.iv + h.Finalize() + enc.Output()]
    ensures !ok ==> fs.files == old(fs.files)
  {
    var tail := enc.Finalize();
    assert tail == Some([]);
    if fault == Some(writes) {
      return false;
    }
    OverwriteEnd(fs.files[tmp], tail.value);
    assert fs.files[tmp] + tail.value == fs.files[tmp];
    fs.Write(tmp, |fs.files[tmp]|, tail.value);
    assert fs.files == old(fs.files);
    var mac := h.Finalize();
    if fault == Some(writes + 1) {
      return false;
    }
    fs.Write(tmp, 0, enc.iv + mac);
    OverwriteHeader(Zeros(HEADER_LEN), enc.Output(), enc.iv + mac);
    return true;
  }

  /**
   * The `with` block of `encrypt_file`: write the container for `path` into
   * `tmp` (placeholder header, the chunks, `finalize()`, then the real
   * header). On a write error `tmp` holds whatever was written so far.
   */
  method WriteContainer(fs: FileSystem, prims: Primitives, key: Key, iv: Block, path: Path, tmp: Path,
                        fault: Option<nat>) returns (ok: bool)
    requires path in fs.files && tmp == TempName(path)
    modifies fs
    ensures ok == !(fault.Some? && fault.value < EncryptWrites(|old(fs.files[path])|))
    ensures tmp in fs.files
    ensures ok ==> fs.files == old(fs.files)[tmp := Seal(prims, key, iv, old(fs.files[path]))]
    ensures !ok ==> fs.files == old(fs.files)[tmp := fs.files[tmp]]
  {
    var plain := fs.files[path];
    var enc := new CbcEncryptor(prims, key, iv);
    var h := new HmacSha256(prims, key);
    h.Update(iv);
    fs.Create(tmp);
    if fault == Some(0) {
      return false;
    }
    fs.Write(tmp, 0, Zeros(HEADER_LEN));
    ok := EncryptChunks(fs, enc, h, path, tmp, fault);
    if !ok {
      return false;
    }
    PaddedLength(plain);
    ghost var encrypted := fs.files;
    assert encrypted == old(fs.files)[tmp := Zeros(HEADER_LEN) + enc.Output()];
    ok := FinishContainer(fs, enc, h, tmp, 1 + ChunkCount(|plain|), fault);
    if !ok {
      return false;
    }
    assert Whole(enc.fed) == enc.fed;
    assert enc.Output() == SealedBody(prims, key, iv, plain);
    assert h.Finalize() == SealedTag(prims, key, iv, plain);
    assert fs.files == encrypted[tmp := Seal(prims, key, iv, plain)];
  }

  /**
   * `encrypt_file(path, key)` with IV `iv`, where `script` is the basename of
   * the running script. On success the plaintext is replaced by the sealed
   * container under `path + ".cr"`; on a write error the temporary file is
   * removed and everything else is as before.
   */
  method EncryptFile(fs: FileSystem, stats: Statistics, prims: Primitives, key: Key, iv: Block,
                     script: Path, path: Path, fault: Option<nat>) returns (r: Outcome)
    requires !EncryptSkips(path, script) ==> path in fs.files
    modifies fs, stats
    ensures EncryptSkips(path, script) ==> r == Skipped
    ensures !EncryptSkips(path, script) ==>
      r == if fault.Some? && fault.value < EncryptWrites(|old(fs.files[path])|) then Failed(WriteFailed) else Done
    ensures r == Skipped ==> fs.files == old(fs.files) && unchanged(stats)
    ensures r == Failed(WriteFailed) ==> fs.files == old(fs.files) - {TempName(path)} && unchanged(stats)
    ensures r == Done ==>
      fs.files == (old(fs.files) - {path, TempName(path)})[EncryptedName(path) := Seal(prims, key, iv, old(fs.files[path]))]
    ensures r == Done ==> stats.count == old(stats.count) + 1 && stats.size == old(stats.size) + |old(fs.files[path])|
  {
    if EndsWith(path, SUFFIX) || Basename(path) == script {
      return Skipped;
    }
    var fileSize := |fs.files[path]|;
    var tmp := TempName(path);
    var ok := WriteContainer(fs, prims, key, iv, path, tmp, fault);
    if !ok {
      RemoveUpdated(old(fs.files), tmp, fs.files[tmp]);
      fs.Remove(tmp);
      return Failed(WriteFailed);
    }
    ghost var sealed := fs.files[tmp];
    fs.Replace(tmp, EncryptedName(path));
    fs.Remove(path);
    CommitEncrypted(old(fs.files), path, sealed);
    stats.Record(fileSize);
    return Done;
  }

  /**
   * The verification pass of `decrypt_file`: HMAC over `iv` and every byte
   * from `dataPos` on, read in 64 KiB chunks, compared with `saved`.
   */
  method VerifyTag(fs: FileSystem, prims: Primitives, key: Key, path: Path,
                   iv: Block, saved: Bytes, dataPos: nat) returns (ok: bool)
    requires path in fs.files && dataPos <= |fs.files[path]|
    ensures ok <==> prims.hmacSha256(key, iv + fs.files[path][dataPos..]) == saved
  {
    var data := fs.files[path];
    var h := new HmacSha256(prims, key);
    h.Update(iv);
    var pos := dataPos;
    while true
      invariant dataPos <= pos <= |data|
      invariant h.prims == prims && h.key == key && h.fed == iv + data[dataPos..pos]
      decreases |data| - pos
    {
      var chunk := Read(fs.files[path], pos, CHUNK_LEN);
      if chunk == [] {
        break;
      }
      assert data[dataPos..pos] + chunk == data[dataPos..pos + |chunk|];
      h.Update(chunk);
      pos := pos + |chunk|;
    }
    assert data[dataPos..pos] == data[dataPos..];
    ok := h.Verify(saved);
  }

  /** The plaintext of the first `k` chunks of a body. */
  function LeadPlain(p: Primitives, key: Key, iv: Block, body: Bytes, k: nat): (m: Bytes)
    requires k * CHUNK_LEN <= |body|
    ensures |m| == k * CHUNK_LEN
  {
    ChunksAligned(k);
    CbcDecrypt(p, key, iv, body[..k * CHUNK_LEN])
  }

  /** What `decrypt_file` leaves behind: how it ends, and the contents of the output file. */
  datatype Effect = Effect(outcome: Outcome, written: Bytes)

  /**
   * The effect of `decrypt_file` on an authenticated container `c`: the lead
   * chunks are written one by one, then the final part goes through the pad
   * strip; `fault` stops it at that write call. Past the tag check only the
   * write, `finalize()` and `final_part[-1]` errors remain, a write error
   * needs a raising write, and the final-part error is exactly the empty body.
   */
  function Opening(p: Primitives, key: Key, c: Bytes, fault: Option<nat>): (e: Effect)
    requires |c| >= HEADER_LEN
    ensures e.outcome in {Done, Failed(WriteFailed), Failed(NotBlockAligned), Failed(EmptyFinalPart)}
    ensures e.outcome == Failed(WriteFailed) ==> fault.Some?
    ensures e.outcome == Failed(EmptyFinalPart) <==> |c| == HEADER_LEN
  {
    var iv: Block := c[..IV_LEN];
    var body := c[HEADER_LEN..];
    var leadWrites := LeadLen(|body|) / CHUNK_LEN;
    if fault.Some? && fault.value < leadWrites then
      Effect(Failed(WriteFailed), LeadPlain(p, key, iv, body, fault.value))
    else
      match Decode(p, key, iv, body)
      case Unaligned(partial) => Effect(Failed(NotBlockAligned), partial)
      case EmptyPart => Effect(Failed(EmptyFinalPart), [])
      case Recovered(plain) =>
        if fault == Some(leadWrites) then Effect(Failed(WriteFailed), LeadPlain(p, key, iv, body, leadWrites))
        else Effect(Done, plain)
  }

  /**
   * What `decrypt_file` can leave behind: never more bytes than the body holds,
   * and success exactly for a non-empty block-aligned body whose writes all succeed.
   */
  lemma OpeningShape(p: Primitives, key: Key, c: Bytes, fault: Option<nat>)
    requires |c| >= HEADER_LEN
    ensures |Opening(p, key, c, fault).written| <= |c| - HEADER_LEN
    ensures Opening(p, key, c, fault).outcome == Done <==>
              |c| > HEADER_LEN && (|c| - HEADER_LEN) % BLOCK_LEN == 0 &&
              (fault.None? || fault.value > LeadLen(|c| - HEADER_LEN) / CHUNK_LEN)
  {
    var iv: Block, body := c[..IV_LEN], c[HEADER_LEN..];
    assert |body| == |c| - HEADER_LEN;
    var k := LeadLen(|body|) / CHUNK_LEN;
    var e, d := Opening(p, key, c, fault), Decode(p, key, iv, body);
    LeadChunks(|body|);
    if fault.Some? && fault.value < k {
      assert fault.value * CHUNK_LEN <= k * CHUNK_LEN;
      assert e == Effect(Failed(WriteFailed), LeadPlain(p, key, iv, body, fault.value));
    } else {
      match d
      case Unaligned(partial) =>
        assert e == Effect(Failed(NotBlockAligned), partial);
      case EmptyPart =>
        assert e == Effect(Failed(EmptyFinalPart), []);
      case Recovered(plain) =>
        DecodeShape(p, key, iv, body);
        assert |body| > 0 && |body| % BLOCK_LEN == 0;
        if fault == Some(k) {
          assert e == Effect(Failed(WriteFailed), LeadPlain(p, key, iv, body, k));
        } else {
          assert e == Effect(Done, plain) && (fault.None? || fault.value > k);
        }
    }
  }

  /** A chunk boundary before the end of a body of `n` bytes comes after at most the lead chunks. */
  lemma MoreLead(n: nat, w: nat)
    requires (w + 1) * CHUNK_LEN < n
    ensures (w + 1) * CHUNK_LEN <= LeadLen(n) && w < LeadLen(n) / CHUNK_LEN
  {
    var b := LeadLen(n) / CHUNK_LEN;
    LeadChunks(n);
    assert (n - 1) / CHUNK_LEN >= w + 1;
  }

  /**
   * `f_out.write(decryptor.update(last_chunk))` for a full 64 KiB chunk that
   * is known not to be the last; the write raises when `fail`.
   */
  method FlushChunk(fs: FileSystem, dec: CbcDecryptor, out: Path, chunk: Bytes, fail: bool) returns (ok: bool)
    requires dec.Valid() && |dec.fed| % BLOCK_LEN == 0 && |chunk| == CHUNK_LEN
    requires out in fs.files && fs.files[out] == dec.Output()
    modifies fs, dec
    ensures dec.Valid() && dec.fed == old(dec.fed) + chunk && |dec.fed| % BLOCK_LEN == 0
    ensures ok == !fail
    ensures ok ==> fs.files == old(fs.files)[out := dec.Output()]
    ensures !ok ==> fs.files == old(fs.files)
  {
    ChunksAligned(1);
    AlignedSum(|dec.fed|, |chunk|);
    var pt := dec.Update(chunk);
    if fail {
      return false;
    }
    OverwriteEnd(fs.files[out], pt);
    fs.Write(out, |fs.files[out]|, pt);
    return true;
  }

  /**
   * Where the look-ahead loop of `decrypt_file` stands in a body: `lead`
   * bytes handed to the decryptor, `pos` bytes read, and `last` the chunk
   * held back in between.
   */
  ghost predicate LeadProgress(body: Bytes, lead: nat, pos: nat, last: Bytes)
  {
    lead <= pos <= |body| && lead % CHUNK_LEN == 0 && last == body[lead..pos] &&
    (pos < |body| ==> pos % CHUNK_LEN == 0 && (pos > 0 ==> |last| == CHUNK_LEN)) &&
    (pos > 0 <==> last != []) && |last| <= CHUNK_LEN
  }

  /** The next read of the look-ahead loop: empty exactly at the end, and full unless it reaches the end. */
  lemma ReadNext(body: Bytes, lead: nat, pos: nat, last: Bytes)
    requires LeadProgress(body, lead, pos, last)
    ensures var chunk := Read(body, pos, CHUNK_LEN);
      (chunk == [] <==> pos == |body|) &&
      (chunk != [] ==>
        var next := pos + |chunk|;
        next <= |body| && chunk == body[pos..next] && |chunk| <= CHUNK_LEN &&
        (next < |body| ==> |chunk| == CHUNK_LEN && next % CHUNK_LEN == 0))
  {
    var chunk := Read(body, pos, CHUNK_LEN);
    if chunk != [] && pos + |chunk| < |body| {
      ChunkStep(pos, |chunk|);
    }
  }

  /** Handing the held-back chunk to the decryptor when another chunk has been read after it. */
  lemma FlushNext(body: Bytes, lead: nat, pos: nat, last: Bytes, chunk: Bytes)
    requires LeadProgress(body, lead, pos, last) && last != []
    requires chunk != [] && pos + |chunk| <= |body| && chunk == body[pos..pos + |chunk|]
    requires |chunk| <= CHUNK_LEN && (pos + |chunk| < |body| ==> |chunk| == CHUNK_LEN && (pos + |chunk|) % CHUNK_LEN == 0)
    ensures lead + CHUNK_LEN < |body| && lead + CHUNK_LEN <= LeadLen(|body|)
    ensures body[..lead] + last == body[..lead + CHUNK_LEN]
    ensures LeadProgress(body, lead + CHUNK_LEN, pos + |chunk|, chunk)
  {
    assert pos == lead + CHUNK_LEN;
    MoreLead(|body|, lead / CHUNK_LEN);
    assert body[..lead] + last == body[..lead + CHUNK_LEN];
  }

  /**
   * One round of the look-ahead loop over the body of container `c`: an
   * empty read means the whole body has been read; otherwise a held-back
   * chunk is a full chunk before the end, and the chunk read is held back next.
   */
  lemma LeadStep(c: Bytes, lead: nat, pos: nat, last: Bytes)
    requires |c| >= HEADER_LEN && LeadProgress(c[HEADER_LEN..], lead, pos, last)
    ensures var chunk := Read(c, HEADER_LEN + pos, CHUNK_LEN);
      var body := c[HEADER_LEN..];
      (chunk == [] <==> pos == |body|) &&
      (chunk != [] && last != [] ==>
        lead + CHUNK_LEN < |body| && lead + CHUNK_LEN <= LeadLen(|body|) &&
        body[..lead] + last == body[..lead + CHUNK_LEN] &&
        LeadProgress(body, lead + CHUNK_LEN, pos + |chunk|, chunk)) &&
      (chunk != [] && last == [] ==> LeadProgress(body, lead, pos + |chunk|, chunk))
  {
    var body := c[HEADER_LEN..];
    var chunk := Read(c, HEADER_LEN + pos, CHUNK_LEN);
    ReadAfter(c, HEADER_LEN, pos, CHUNK_LEN);
    ReadNext(body, lead, pos, last);
    if chunk != [] {
      if last != [] {
        FlushNext(body, lead, pos, last, chunk);
      } else {
        assert pos == 0 && lead == 0;
        assert LeadProgress(body, lead, pos + |chunk|, chunk);
      }
    }
  }

  /** At the end of the look-ahead loop, the held-back chunk is exactly what follows the lead. */
  lemma LeadDone(body: Bytes, lead: nat, last: Bytes)
    requires LeadProgress(body, lead, |body|, last)
    ensures LeadLen(|body|) == lead && last == body[lead..]
  {
    if |body| > 0 {
      LeadLenAfter(lead, |last|);
    }
  }

  /**
   * One round of the look-ahead loop of `decrypt_file` over the body of
   * `path`: read the next chunk at `pos`; if there is one and a chunk is held
   * back, decrypt the held-back chunk and append it to `out` as write call
   * `writes`.
   */
  method DecryptNextChunk(fs: FileSystem, dec: CbcDecryptor, path: Path, out: Path, ghost lead: nat,
                          pos: nat, last: Bytes, writes: nat, fault: Option<nat>)
    returns (more: bool, ok: bool, chunk: Bytes)
    requires path in fs.files && |fs.files[path]| >= HEADER_LEN && out != path && out in fs.files
    requires LeadProgress(fs.files[path][HEADER_LEN..], lead, pos, last) && lead == writes * CHUNK_LEN
    requires dec.Valid() && dec.fed == fs.files[path][HEADER_LEN..][..lead] && fs.files[out] == dec.Output()
    requires fault.None? || fault.value >= writes
    modifies fs, dec
    ensures var body := old(fs.files[path])[HEADER_LEN..];
      && dec.Valid() && (more ==> chunk != [])
      && (!more ==> ok && pos == |body| && fs.files == old(fs.files) && dec.fed == old(dec.fed))
      && (more && last == [] ==>
            ok && fs.files == old(fs.files) && dec.fed == old(dec.fed) &&
            LeadProgress(body, lead, pos + |chunk|, chunk))
      && (more && last != [] && !ok ==>
            fault == Some(writes) && writes < LeadLen(|body|) / CHUNK_LEN && fs.files == old(fs.files) &&
            |dec.fed| % BLOCK_LEN == 0 && old(dec.Output()) == LeadPlain(dec.prims, dec.key, dec.iv, body, writes))
      && (more && last != [] && ok ==>
            LeadProgress(body, lead + CHUNK_LEN, pos + |chunk|, chunk) &&
            dec.fed == body[..lead + CHUNK_LEN] && fs.files == old(fs.files)[out := dec.Output()] &&
            lead + CHUNK_LEN == (writes + 1) * CHUNK_LEN && (fault.None? || fault.value >= writes + 1))
  {
    var c := fs.files[path];
    ghost var body := c[HEADER_LEN..];
    LeadStep(c, lead, pos, last);
    chunk := Read(c, HEADER_LEN + pos, CHUNK_LEN);
    if chunk == [] {
      return false, true, chunk;
    }
    more := true;
    if last == [] {
      return more, true, chunk;
    }
    ChunksAligned(writes);
    NextBoundary(writes);
    assert Whole(dec.fed) == dec.fed;
    assert dec.Output() == LeadPlain(dec.prims, dec.key, dec.iv, body, writes);
    assert writes < LeadLen(|body|) / CHUNK_LEN;
    ok := FlushChunk(fs, dec, out, last, fault == Some(writes));
  }

  /**
   * The look-ahead loop of `decrypt_file`: every chunk of the body of `c`
   * except the last is decrypted and appended to `out` once its successor
   * has been read. Ends holding the last chunk, or at the failing write.
   */
  method DecryptLead(fs: FileSystem, dec: CbcDecryptor, path: Path, out: Path, fault: Option<nat>)
    returns (ok: bool, last: Bytes, writes: nat)
    requires path in fs.files && |fs.files[path]| >= HEADER_LEN && out != path
    requires out in fs.files && fs.files[out] == [] && dec.Valid() && dec.fed == []
    modifies fs, dec
    ensures var body := old(fs.files[path])[HEADER_LEN..];
      var k := LeadLen(|body|) / CHUNK_LEN;
      && ok == !(fault.Some? && fault.value < k)
      && dec.Valid() && |dec.fed| % BLOCK_LEN == 0 && out in fs.files
      && (ok ==> writes == k && dec.fed == body[..LeadLen(|body|)] && last == body[LeadLen(|body|)..]
                 && fs.files == old(fs.files)[out := dec.Output()])
      && (!ok ==> fs.files == old(fs.files)[out := LeadPlain(dec.prims, dec.key, dec.iv, body, fault.value)])
  {
    ghost var body := fs.files[path][HEADER_LEN..];
    ghost var lead: nat := 0;
    last := [];
    var pos := 0;
    writes := 0;
    while true
      invariant path in fs.files && |fs.files[path]| >= HEADER_LEN && fs.files[path][HEADER_LEN..] == body
      invariant LeadProgress(body, lead, pos, last) && lead == writes * CHUNK_LEN
      invariant dec.Valid() && dec.fed == body[..lead]
      invariant fs.files == old(fs.files)[out := dec.Output()]
      invariant fault.None? || fault.value >= writes
      decreases |body| - pos
    {
      var more, flushed, chunk := DecryptNextChunk(fs, dec, path, out, lead, pos, last, writes, fault);
      if !more {
        break;
      }
      if !flushed {
        return false, last, writes;
      }
      if last != [] {
        writes := writes + 1;
        lead := lead + CHUNK_LEN;
      }
      last := chunk;
      pos := pos + |chunk|;
    }
    LeadDone(body, lead, last);
    ChunksAligned(writes);
    assert LeadLen(|body|) / CHUNK_LEN == writes;
    return true, last, writes;
  }

  /**
   * The end of `decrypt_file`'s `with` block: decrypt the last chunk,
   * `finalize()`, then strip the padding from the final part and write it.
   * Python's `final_part[-1]` fails on an empty final part.
   */
  method FinishOpening(fs: FileSystem, dec: CbcDecryptor, out: Path, last: Bytes, writes: nat,
                       fault: Option<nat>) returns (r: Outcome)
    requires dec.Valid() && |dec.fed| % BLOCK_LEN == 0
    requires out in fs.files && fs.files[out] == dec.Output()
    modifies fs, dec
    ensures |last| % BLOCK_LEN != 0 ==> r == Failed(NotBlockAligned) && fs.files == old(fs.files)
    ensures |last| % BLOCK_LEN == 0 && last == [] ==> r == Failed(EmptyFinalPart) && fs.files == old(fs.files)
    ensures |last| % BLOCK_LEN == 0 && last != [] && fault == Some(writes) ==>
              r == Failed(WriteFailed) && fs.files == old(fs.files)
    ensures |last| % BLOCK_LEN == 0 && last != [] && fault != Some(writes) ==>
              r == Done &&
              fs.files == old(fs.files)[out := old(dec.Output()) +
                StripPad(CbcDecrypt(dec.prims, dec.key, LastBlock(dec.iv, old(dec.fed)), last))]
  {
    ghost var fedBefore := dec.fed;
    ghost var written := dec.Output();
    var head := dec.Update(last);
    AlignedSum(|fedBefore|, |last|);
    var fin := dec.Finalize();
    if fin.None? {
      return Failed(NotBlockAligned);
    }
    assert Whole(fedBefore) == fedBefore && Whole(dec.fed) == dec.fed;
    CbcDecryptAppend(dec.prims, dec.key, dec.iv, fedBefore, last);
    assert head == (written + head)[|written|..];
    var finalPart := head + fin.value;
    assert finalPart == CbcDecrypt(dec.prims, dec.key, LastBlock(dec.iv, fedBefore), last);
    if |finalPart| == 0 {
      return Failed(EmptyFinalPart);
    }
    if fault == Some(writes) {
      return Failed(WriteFailed);
    }
    OverwriteEnd(fs.files[out], StripPad(finalPart));
    fs.Write(out, |fs.files[out]|, StripPad(finalPart));
    return Done;
  }

  /** `Opening` case by case, in the terms the streaming loop works in. */
  lemma OpeningCases(p: Primitives, key: Key, c: Bytes, fault: Option<nat>)
    requires |c| >= HEADER_LEN
    ensures var body := c[HEADER_LEN..];
      var lead := LeadLen(|body|);
      var k := lead / CHUNK_LEN;
      var iv: Block := c[..IV_LEN];
      var e := Opening(p, key, c, fault);
      var lp := LeadPlain(p, key, iv, body, k);
      var last := body[lead..];
      && k * CHUNK_LEN == lead
      && (fault.Some? && fault.value < k ==> e == Effect(Failed(WriteFailed), LeadPlain(p, key, iv, body, fault.value)))
      && (!(fault.Some? && fault.value < k) ==>
           && (|last| % BLOCK_LEN != 0 ==> e == Effect(Failed(NotBlockAligned), lp))
           && (|last| % BLOCK_LEN == 0 && last == [] ==> e == Effect(Failed(EmptyFinalPart), []) && lp == [])
           && (|last| % BLOCK_LEN == 0 && last != [] && fault == Some(k) ==> e == Effect(Failed(WriteFailed), lp))
           && (|last| % BLOCK_LEN == 0 && last != [] && fault != Some(k) ==>
                 e == Effect(Done, lp + StripPad(CbcDecrypt(p, key, LastBlock(iv, body[..lead]), last)))))
  {
    var body := c[HEADER_LEN..];
    var lead := LeadLen(|body|);
    var k := lead / CHUNK_LEN;
    var iv: Block := c[..IV_LEN];
    var e := Opening(p, key, c, fault);
    LeadChunks(|body|);
    LastAligned(|body|);
    var lp := LeadPlain(p, key, iv, body, k);
    assert lp == CbcDecrypt(p, key, iv, body[..lead]);
    var last := body[lead..];
    if fault.Some? && fault.value < k {
      assert e == Effect(Failed(WriteFailed), LeadPlain(p, key, iv, body, fault.value));
    } else if |body| % BLOCK_LEN != 0 {
      assert Decode(p, key, iv, body) == Unaligned(lp);
      assert e == Effect(Failed(NotBlockAligned), lp);
    } else if |body| == 0 {
      assert Decode(p, key, iv, body) == EmptyPart;
      assert e == Effect(Failed(EmptyFinalPart), []);
    } else {
      assert last != [];
      var plain := lp + StripPad(CbcDecrypt(p, key, LastBlock(iv, body[..lead]), last));
      assert Decode(p, key, iv, body) == Recovered(plain);
      if fault == Some(k) {
        assert e == Effect(Failed(WriteFailed), lp);
      } else {
        assert e == Effect(Done, plain);
      }
    }
  }

  /**
   * The plaintext half of `decrypt_file` after the tag has verified: stream
   * the body of `path` through a fresh decryptor into the empty file `out`.
   */
  method DecryptBody(fs: FileSystem, dec: CbcDecryptor, path: Path, out: Path, fault: Option<nat>)
    returns (r: Outcome)
    requires path in fs.files && |fs.files[path]| >= HEADER_LEN && out != path
    requires out in fs.files && fs.files[out] == []
    requires dec.Valid() && dec.fed == [] && dec.iv == fs.files[path][..IV_LEN]
    modifies fs, dec
    ensures var e := Opening(dec.prims, dec.key, old(fs.files[path]), fault);
      r == e.outcome && fs.files == old(fs.files)[out := e.written]
  {
    ghost var c := fs.files[path];
    ghost var body := c[HEADER_LEN..];
    ghost var prims, key, iv := dec.prims, dec.key, dec.iv;
    var ok, last, writes := DecryptLead(fs, dec, path, out, fault);
    OpeningCases(prims, key, c, fault);
    if !ok {
      return Failed(WriteFailed);
    }
    assert Whole(dec.fed) == dec.fed;
    ghost var lead := LeadLen(|body|);
    ghost var lp := dec.Output();
    assert lp == LeadPlain(prims, key, iv, body, writes);
    assert dec.fed == body[..lead] && LastBlock(dec.iv, dec.fed) == LastBlock(iv, body[..lead]);
    ghost var mid := fs.files;
    r := FinishOpening(fs, dec, out, last, writes, fault);
    if r == Done {
      ghost var plain := lp + StripPad(CbcDecrypt(prims, key, LastBlock(iv, body[..lead]), last));
      assert fs.files == mid[out := plain];
    } else {
      assert fs.files == mid;
    }
  }

  /**
   * The `with` blocks of `decrypt_file` after the tag has verified: create
   * the output file and write the plaintext of the body into it.
   */
  method WriteOpened(fs: FileSystem, prims: Primitives, key: Key, path: Path, iv: Block, fault: Option<nat>)
    returns (r: Outcome)
    requires EndsWith(path, SUFFIX) && path in fs.files && |fs.files[path]| >= HEADER_LEN
    requires iv == fs.files[path][..IV_LEN]
    modifies fs
    ensures var e := Opening(prims, key, old(fs.files[path]), fault);
      r == e.outcome && fs.files == old(fs.files)[DecryptedName(path) := e.written]
  {
    var out := DecryptedName(path);
    DecryptedNameDiffers(path);
    fs.Create(out);
    ghost var created := fs.files;
    var dec := new CbcDecryptor(prims, key, iv);
    r := DecryptBody(fs, dec, path, out, fault);
    ghost var e := Opening(prims, key, old(fs.files[path]), fault);
    assert created[out := e.written] == old(fs.files)[out := e.written];
  }

  /**
   * `decrypt_file(path, key)`. Nothing is written unless the tag verifies;
   * after that the plaintext goes straight to the derived name, so a failure
   * part-way leaves a partial file there and keeps the container.
   */
  method DecryptFile(fs: FileSystem, stats: Statistics, prims: Primitives, key: Key,
                     path: Path, fault: Option<nat>) returns (r: Outcome)
    modifies fs, stats
    ensures DecryptSkips(path) ==> r == Skipped
    ensures !DecryptSkips(path) && path !in old(fs.files) ==> r == Failed(NoSuchFile)
    ensures !DecryptSkips(path) && path in old(fs.files) && |old(fs.files[path])| < IV_LEN ==> r == ShortHeader
    ensures (!DecryptSkips(path) && path in old(fs.files) && |old(fs.files[path])| >= IV_LEN
             && !Authentic(prims, key, old(fs.files[path]))) ==> r == IntegrityFailure
    ensures !DecryptSkips(path) && path in old(fs.files) && Authentic(prims, key, old(fs.files[path])) ==>
      |old(fs.files[path])| >= HEADER_LEN &&
      var e := Opening(prims, key, old(fs.files[path]), fault);
      r == e.outcome &&
      fs.files == if r == Done then old(fs.files)[DecryptedName(path) := e.written] - {path}
                  else old(fs.files)[DecryptedName(path) := e.written]
    ensures fs.files != old(fs.files) ==> path in old(fs.files) && Authentic(prims, key, old(fs.files[path]))
    ensures r == Done ==> stats.count == old(stats.count) + 1 && stats.size == old(stats.size) + |old(fs.files[path])|
    ensures r != Done ==> unchanged(stats)
  {
    if !EndsWith(path, SUFFIX) {
      return Skipped;
    }
    if path !in fs.files {
      return Failed(NoSuchFile);
    }
    var c := fs.files[path];
    var ivField := Read(c, 0, IV_LEN);
    var savedTag := Read(c, |ivField|, TAG_LEN);
    if |ivField| < IV_LEN {
      return ShortHeader;
    }
    var iv: Block := ivField;
    assert savedTag == TagField(c);
    var dataPos := |ivField| + |savedTag|;
    assert c[dataPos..] == BodyField(c);
    var ok := VerifyTag(fs, prims, key, path, iv, savedTag, dataPos);
    if !ok {
      return IntegrityFailure;
    }
    assert iv == c[..IV_LEN] && Authentic(prims, key, c);
    AuthenticHeader(prims, key, c);
    DecryptedNameDiffers(path);
    r := WriteOpened(fs, prims, key, path, iv, fault);
    if r != Done {
      return r;
    }
    var size := |fs.files[path]|;
    fs.Remove(path);
    stats.Record(size);
  }

  /** What decrypting a sealed container does, by plaintext length. */
  lemma OpeningSealed(p: Primitives, key: Key, iv: Block, m: Bytes)
    requires AesInverse(p)
    ensures |Seal(p, key, iv, m)| >= HEADER_LEN && Authentic(p, key, Seal(p, key, iv, m))
    ensures |m| % CHUNK_LEN != 0 ==> Opening(p, key, Seal(p, key, iv, m), None) == Effect(Done, m)
    ensures |m| == 0 ==> Opening(p, key, Seal(p, key, iv, m), None) == Effect(Failed(EmptyFinalPart), [])
    ensures |m| > 0 && |m| % CHUNK_LEN == 0 ==>
              Opening(p, key, Seal(p, key, iv, m), None) == Effect(Done, StripPad(m))
  {
    SealAuthentic(p, key, iv, m);
    DecodeSealed(p, key, iv, m);
  }

  /** The three-byte plaintext "abc" comes back from its container whole, its thirteen pad bytes stripped. */
  lemma ThreeByteRoundTrip(p: Primitives, key: Key, iv: Block)
    requires AesInverse(p)
    ensures Opening(p, key, Seal(p, key, iv, [0x61, 0x62, 0x63]), None) == Effect(Done, [0x61, 0x62, 0x63])
  {
    OpeningSealed(p, key, iv, [0x61, 0x62, 0x63]);
  }

  /** The files after a round trip: the plaintext is back and the container is gone. */
  lemma RoundTripFiles(m: map<Path, Bytes>, path: Path, tmp: Path, sealedPath: Path, sealed: Bytes)
    requires path in m && path != sealedPath && path != tmp
    ensures ((m - {path, tmp})[sealedPath := sealed])[path := m[path]] - {sealedPath} == m - {tmp, sealedPath}
  {
  }

  /**
   * Encrypting a file and then decrypting its container restores the file
   * and cleans up, when its length is not a multiple of 64 KiB and its name
   * holds no ".cr".
   */
  method EncryptThenDecrypt(fs: FileSystem, stats: Statistics, prims: Primitives, key: Key, iv: Block,
                            script: Path, path: Path)
    requires AesInverse(prims)
    requires path in fs.files && Basename(path) != script && NoOccurrence(path)
    requires |fs.files[path]| % CHUNK_LEN != 0
    modifies fs, stats
    ensures fs.files == old(fs.files) - {TempName(path), EncryptedName(path)}
    ensures stats.count == old(stats.count) + 2
  {
    var plain := fs.files[path];
    assert !EndsWith(path, SUFFIX) by {
      if EndsWith(path, SUFFIX) {
        assert Occurs(path, |path| - |SUFFIX|);
      }
    }
    assert !EncryptSkips(path, script);
    var encrypted := EncryptFile(fs, stats, prims, key, iv, script, path, None);
    var sealedPath := EncryptedName(path);
    ghost var sealed := Seal(prims, key, iv, plain);
    assert encrypted == Done;
    ghost var mid := fs.files;
    assert mid == (old(fs.files) - {path, TempName(path)})[sealedPath := sealed];
    OpeningSealed(prims, key, iv, plain);
    DecryptedNameOfEncrypted(path);
    assert !DecryptSkips(sealedPath) && sealedPath in mid && mid[sealedPath] == sealed;
    assert Authentic(prims, key, sealed) && Opening(prims, key, sealed, None) == Effect(Done, plain);
    var decrypted := DecryptFile(fs, stats, prims, key, sealedPath, None);
    assert decrypted == Done;
    assert fs.files == mid[path := plain] - {sealedPath};
    RoundTripFiles(old(fs.files), path, TempName(path), sealedPath, sealed);
  }
}
