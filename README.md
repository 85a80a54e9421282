# lkpb container model

lkpb is a command-line tool that encrypts files in place. It encrypts a file
into `path.cr` and decrypts a `.cr` file back. A container is a 48-byte header
followed by a body:

- the header is a 16-byte random IV and a 32-byte HMAC-SHA-256 tag;
- the body is the AES-256-CBC encryption of the plaintext, processed in 64 KiB
  chunks, where only a chunk shorter than 64 KiB is padded.

The project models the core of lkpb: `encrypt_file`, `decrypt_file`, the pad
and strip rules, the path filters and name derivations, and the global
statistics counters.

Modules:

- `Crypto`: byte types and the abstract primitives. AES-256 and HMAC-SHA-256
  are function values in `Primitives`. The one fact the container relies on,
  that AES decryption inverts encryption, is the predicate `AesInverse`. CBC
  chaining (section 6.2 of NIST SP 800-38A) is written out over that block
  cipher, and its chunking and round-trip laws are proved.
- `Streams`: the library's streaming contexts as classes. `CbcEncryptor` and
  `CbcDecryptor` keep a chaining block and a partial block. Their contract ties
  everything emitted to one-shot CBC of the bytes fed so far. The state of
  `HmacSha256` is the message fed so far.
- `Container`: the one-shot meaning of a container.
  - `Seal` is what `encrypt_file` commits.
  - `Authentic` is what `h.verify` accepts.
  - `Decode` is what the look-ahead decryption pass recovers.
  - Lemmas relate the three: the round trip, and exactly when it fails.
- `Paths`: the skip filters and the `.tmp`, `.cr` and `replace(".cr", "")`
  name derivations.
- `Files`: the file system as a map from path to bytes. It provides `read(n)`
  at a position, writes that append or overwrite after `seek`, `os.replace`
  and `os.remove`.
- `Lkpb`: `EncryptFile` and `DecryptFile` with their chunk loops, and the
  `Statistics` counters.
  - Both are proved against the `Container` functions.
  - A write error is a `fault` parameter: `Some(k)` makes the k-th `write` call
    on the output file raise. This gives every write error on the output file
    a definite outcome.
  - `Opening` states what `decrypt_file` leaves behind for an authentic
    container: the outcome and the bytes of the output file.

What the model exposes rather than hides:

- A plaintext whose length is a multiple of 64 KiB (0 included) is never
  padded. Decryption still reads its last byte as a pad length. The round trip
  is the identity exactly when the length is not such a multiple, or the
  plaintext is non-empty and its last byte is outside 1..16 (`RoundTripIff`).
- An empty plaintext seals to a bare header. Decrypting it fails on
  `final_part[-1]` after the output file has been created, which leaves an
  empty file (`OpeningSealed`, `DecryptFile`).
- `replace(".cr", "")` removes every occurrence of `.cr`:
  - `d.cr/f.cr` decrypts to `d/f`;
  - `.c.crr.cr` decrypts to `.cr`, a name that is itself a container name.
- Decryption writes to the final name with no temporary file. A write error or
  a `finalize()` error after the tag has verified leaves a partial output file
  and keeps the container.

## Model

| member | source | states |
|---|---|---|
| Container.PadLen | lkpb.py:66 | the pad length for a final chunk of n bytes is in 1..16 and makes n + pad a multiple of 16 |
| Container.Padding | lkpb.py:66-67 | the padding is PadLen(n) bytes, each equal to the pad length |
| Container.PadChunk | lkpb.py:65-67 | a chunk shorter than 64 KiB is padded to a multiple of 16; a full chunk is passed unchanged |
| Container.PadFits | lkpb.py:65-67 | a chunk shorter than 64 KiB is still at most 64 KiB once padded |
| Container.ChunksAligned | lkpb.py:63 | a whole number of 64 KiB reads is a whole number of 16-byte blocks, so chunk boundaries are block boundaries |
| Container.ChunkModBlock | lkpb.py:63-66 | the short final read leaves the same remainder modulo 16 as the whole file, so its pad length is the file's |
| Container.RoundUp | lkpb.py:66-67 | a final chunk padded by `16 - len % 16` is a whole number of blocks |
| Container.Padded | lkpb.py:62-67 | what the cipher is fed for plaintext m: no padding when \|m\| is a multiple of 64 KiB (0 included), otherwise the padding of the short last chunk |
| Container.PaddedLength | lkpb.py:62-71 | the body length is \|m\| for a multiple of 64 KiB, else \|m\| - \|m\| % 16 + 16; it is always a multiple of 16, so `finalize()` adds nothing |
| Container.PaddedStep | lkpb.py:62-67 | padding chunk by chunk equals padding the prefix read so far, and only a short chunk ends off a chunk boundary |
| Container.SealedBody | lkpb.py:68-70 | the body is CBC of the padded plaintext, as long as it and block-aligned |
| Container.Seal | lkpb.py:61-74 | the committed container is iv (16) ‖ tag (32) ‖ body, with each field at its offset |
| Container.SealedTag | lkpb.py:69-72 | the tag accumulated over iv and every ciphertext chunk makes the sealed file authentic |
| Container.IvField | lkpb.py:93 | `f.read(16)`: a prefix of the file, 16 bytes long unless the file is shorter, and then the whole file |
| Container.TagField | lkpb.py:94 | `f.read(32)` after the IV: exactly 32 bytes when the file holds a full 48-byte header; a file shorter than that is used up by the two reads |
| Container.BodyField | lkpb.py:99-103 | the bytes the verification pass hashes after the header: the rest of a file with a full header, nothing otherwise |
| Container.FieldsSplit | lkpb.py:93-103 | the IV field, the tag field and the hashed bytes make up the whole file, with no gap or overlap, however short it is |
| Container.Authentic | lkpb.py:97-105 | verification accepts exactly a file with a full header whose stored tag equals the HMAC of its IV followed by everything after the header |
| Container.AuthenticHeader | lkpb.py:93-105 | a container that passes verification has a full 48-byte header and is exactly iv field ‖ tag field ‖ body field |
| Container.SealAuthentic | lkpb.py:97-105 | a sealed container passes `verify` under the key that sealed it: the encrypt-side tag is the decrypt-side recomputation |
| Container.TagTamperDetected | lkpb.py:104-108 | changing only stored tag bytes of an authentic container makes verification fail |
| Container.LeadLen | lkpb.py:114-120 | the body bytes written before the final chunk: a whole number of chunks, leaving a final chunk of 1..64 KiB in a non-empty body |
| Container.LeadLenAfter | lkpb.py:114-120 | a body of whole chunks followed by a final 1..64 KiB has exactly those whole chunks as its lead |
| Container.LeadChunks | lkpb.py:114-119 | the lead is a whole number of chunks |
| Container.LastAligned | lkpb.py:120 | what follows the lead is as aligned to blocks as the whole body, so `finalize()` sees the body's own remainder |
| Container.StripPad | lkpb.py:121-122 | if the last byte p is in 1..16, p trailing bytes are dropped (all of them when p exceeds the length); otherwise the final part is written unchanged |
| Container.StripPadding | lkpb.py:121-122 | stripping undoes padding |
| Container.StripPadPrefix | lkpb.py:120-122 | the strip only touches the final chunk, so it commutes with prepending the lead |
| Container.Decode | lkpb.py:110-122 | `finalize()` fails exactly on a body that is not block-aligned, after writing plaintext as long as the lead; the `final_part[-1]` error happens exactly on an empty body |
| Container.DecodeShape | lkpb.py:120-122 | a recovered plaintext is at most as long as the body and at most one block shorter |
| Container.DecodeAligned | lkpb.py:113-122 | a non-empty aligned body decodes to the lead decrypted from the IV, then the stripped final part decrypted from the lead's last ciphertext block |
| Container.PaddedSplit | lkpb.py:114-120 | the padded plaintext is the unpadded lead chunks followed by one padded final chunk of 16..64 KiB |
| Container.DecodeEncrypted | lkpb.py:110-122 | decoding the encryption of lead chunks x and final chunk t gives x followed by the strip of t |
| Container.DecodeSealedSplit | lkpb.py:62-122 | decoding the sealed body of a non-empty plaintext gives its lead chunks followed by the strip of its padded final chunk |
| Container.DecodeSealedShort | lkpb.py:62-122 | a plaintext whose length is not a multiple of 64 KiB comes back exactly |
| Container.DecodeSealedWhole | lkpb.py:62-122 | a non-empty plaintext whose length is a multiple of 64 KiB comes back with its final chunk stripped as if it were padded |
| Container.DecodeSealed | lkpb.py:110-122 | decoding a sealed body: an empty plaintext hits the empty final part, a length not a multiple of 64 KiB comes back exactly, a non-empty multiple comes back pad-stripped |
| Container.RoundTripIff | lkpb.py:62-122 | the round trip gives m back if and only if \|m\| is not a multiple of 64 KiB, or m is non-empty and its last byte is not in 1..16 |
| Container.ThreeBytePlaintext | lkpb.py:65-67 | the plaintext "abc" is padded with thirteen bytes of value 13 to one block |
| Crypto.Whole | lkpb.py:68 | the bytes a CBC context has taken as whole blocks: the longest block-aligned prefix of what it was fed |
| Crypto.CbcEncrypt | lkpb.py:53-54 | CBC encryption of block-aligned input is exactly as long as the input (its inverse is `CbcRoundTrip`) |
| Crypto.CbcDecrypt | lkpb.py:111 | CBC decryption of block-aligned input is exactly as long as the input |
| Crypto.LastBlock | lkpb.py:118-120 | the chaining block after a ciphertext is its last block, or the IV itself when nothing was fed |
| Crypto.WholeAppend | lkpb.py:68 | the whole blocks of an aligned prefix followed by more input are that prefix followed by the whole blocks of the rest |
| Crypto.FeedStep | lkpb.py:68 | feeding data to a context with a partial block extends its whole blocks by the whole blocks of partial block plus data, and keeps the rest pending |
| Crypto.CbcEncryptAppend | lkpb.py:62-70 | CBC-encrypting a ‖ b equals encrypting a, then b chained from a's last ciphertext block |
| Crypto.CbcDecryptAppend | lkpb.py:115-120 | CBC-decrypting a ‖ b equals decrypting a, then b chained from a's last block |
| Crypto.CbcRoundTrip | lkpb.py:111 | CBC decryption undoes CBC encryption from the same IV, given only that AES decryption inverts AES encryption |
| Crypto.LastBlockAppend | lkpb.py:68 | the chaining block after a ‖ b is the one after b, chained from the one after a |
| Streams.CbcEncryptor.Update | lkpb.py:68 | `encryptor.update` keeps the context valid; the bytes fed grow by the data and everything emitted is CBC of the whole blocks fed |
| Streams.CbcEncryptor.Finalize | lkpb.py:71 | `finalize()` gives nothing on block-aligned input and fails otherwise |
| Streams.CbcDecryptor.Update | lkpb.py:118-120 | `decryptor.update` keeps the context valid; everything emitted is CBC decryption of the whole blocks fed |
| Streams.CbcDecryptor.Finalize | lkpb.py:120 | `finalize()` gives nothing on block-aligned input and raises otherwise |
| Streams.HmacSha256.Update | lkpb.py:98-103 | `h.update` appends the data to the message |
| Streams.HmacSha256.Verify | lkpb.py:104-108 | `verify` succeeds exactly when the tag of the message fed equals the stored tag |
| Paths.Basename | lkpb.py:45-47 | `os.path.basename`: the longest suffix with no '/', preceded by '/' when shorter than the path |
| Paths.EncryptSkips | lkpb.py:47 | `encrypt_file` skips exactly the names `decrypt_file` would take, and the script's own name |
| Paths.DecryptSkips | lkpb.py:86 | `decrypt_file` goes on exactly for a name that is some name followed by ".cr" |
| Paths.EncryptedName | lkpb.py:75 | the container name is the path followed by ".cr", so it ends in ".cr" and differs from the path |
| Paths.TempName | lkpb.py:58 | the temporary name extends the path and differs from both the path and the container name |
| Paths.DecryptedName | lkpb.py:112 | the output name is never longer than the container name |
| Paths.RemoveAll | lkpb.py:112 | `replace(".cr", "")` never lengthens the name |
| Paths.RemoveAllShrinks | lkpb.py:112 | a name holding ".cr" anywhere gets strictly shorter |
| Paths.RemoveAllIdentity | lkpb.py:112 | the derived name equals the path if and only if the path has no ".cr" in it |
| Paths.RemoveFirst | lkpb.py:112 | `replace` keeps a prefix that holds no ".cr", drops the first ".cr" after it, and goes on with the rest |
| Paths.DecryptedNameDiffers | lkpb.py:112 | a decryption never writes to the container it reads |
| Paths.DecryptedNameOfEncrypted | lkpb.py:112 | decrypting the name of an encrypted file gives the original name back when it has no ".cr" |
| Paths.RemovesEveryOccurrence | lkpb.py:112 | an instance of `RemoveFirst` applied twice: "d.cr/f.cr" decrypts to "d/f" |
| Paths.RemovalCanLeaveSuffix | lkpb.py:112 | the left-to-right scan can leave a ".cr" suffix: ".c.crr.cr" decrypts to ".cr" |
| Paths.EncryptedNameFilters | lkpb.py:47 | a container is never re-encrypted and is always a decryption candidate |
| Files.Read | lkpb.py:93-94 | `read(n)` at a position yields the next at most n bytes, and nothing at the end |
| Files.ReadAfter | lkpb.py:110 | after `f.seek(data_pos)`, reading at an offset into the body is reading the body alone at that offset |
| Files.Overwrite | lkpb.py:70-74 | a write at a position replaces the bytes there and keeps the rest |
| Files.OverwriteHeader | lkpb.py:73-74 | writing iv ‖ mac at offset 0 over the 48-byte placeholder replaces it entirely and leaves the body unchanged |
| Files.OverwriteEnd | lkpb.py:70 | a write at the end of a file appends |
| Files.Zeros | lkpb.py:61 | the placeholder header is 48 zero bytes |
| Files.FileSystem.Create | lkpb.py:113 | `open(name, "wb")` leaves an empty file under that name, truncating any file there, and changes nothing else (also the temporary file at lkpb.py:60) |
| Files.FileSystem.Write | lkpb.py:70-74 | only the written file changes, to its overwritten contents |
| Files.FileSystem.Replace | lkpb.py:75 | `os.replace`: the source name goes and the destination takes its contents |
| Files.FileSystem.Remove | lkpb.py:76 | `os.remove`: only that name goes |
| Lkpb.Statistics.Record | lkpb.py:77-78 | one more file counted, and its size added |
| Lkpb.Statistics.constructor | lkpb.py:11-12 | both counters start at zero |
| Lkpb.ChunkStep | lkpb.py:62-66 | a non-empty read at a chunk boundary counts one more chunk, and ends on a boundary exactly when it was a full 64 KiB |
| Lkpb.NextChunk | lkpb.py:62-67 | reading at a chunk boundary counts one more chunk, extends the padded prefix, and is empty only at the end |
| Lkpb.FeedChunk | lkpb.py:68-69 | `encryptor.update` then `h.update`: the cipher is fed the chunk, its output grows by the returned ciphertext, and the HMAC stays fed with iv followed by all ciphertext |
| Lkpb.AppendChunk | lkpb.py:68-70 | one chunk is encrypted, MACed and appended to the temporary file, or the write raises and the file is left as it was |
| Lkpb.EncryptNextChunk | lkpb.py:62-70 | one loop round: at the end of the file nothing changes; a raising write is one of the file's chunk writes; otherwise the cipher has been fed the padded plaintext read so far and the temporary file holds placeholder followed by the ciphertext so far |
| Lkpb.EncryptChunks | lkpb.py:62-70 | the chunk loop feeds the cipher exactly the padded plaintext, feeds the HMAC iv ‖ ciphertext, and leaves placeholder ‖ ciphertext in the temporary file, unless one of its writes raises |
| Lkpb.FinishContainer | lkpb.py:71-74 | after the loop the temporary file is iv ‖ tag ‖ body, unless the finalize or header write raises |
| Lkpb.WriteContainer | lkpb.py:52-74 | the `with` block leaves exactly the sealed container in the temporary file exactly when none of its ChunkCount(n) + 3 writes raises |
| Lkpb.EncryptFile | lkpb.py:43-82 | skipped paths change nothing. Otherwise, with no write error, the file is replaced by its sealed container under path ".cr", the temporary name is gone and the counters move. On a write error only the temporary file is removed |
| Lkpb.CommitEncrypted | lkpb.py:75-76 | `os.replace` then `os.remove` leave the other files as they were, with the container in place of the file and no temporary file |
| Lkpb.VerifyTag | lkpb.py:97-105 | the verification pass accepts exactly when the HMAC of iv ‖ every byte after the header equals the stored tag |
| Lkpb.LeadPlain | lkpb.py:115-119 | the plaintext the first k chunks decrypt to is k chunks long |
| Lkpb.MoreLead | lkpb.py:115-119 | a chunk boundary before the end of the body lies within the lead |
| Lkpb.ReadNext | lkpb.py:116-117 | a look-ahead read is empty exactly at the end of the body, and is a full chunk unless it reaches the end |
| Lkpb.FlushNext | lkpb.py:118-119 | when another chunk was read, the held-back chunk is a full lead chunk, and the loop invariant holds again with the new chunk held back |
| Lkpb.FlushChunk | lkpb.py:118-119 | a held-back full chunk is decrypted and appended to the output, or the write raises and the output is left as it was |
| Lkpb.LeadStep | lkpb.py:115-119 | one look-ahead round: an empty read means the whole body was read; otherwise the held-back chunk is a full lead chunk, and what was handed on followed by the new held-back chunk is the body read so far |
| Lkpb.LeadDone | lkpb.py:115-120 | when the loop ends, the held-back chunk is exactly what follows the lead |
| Lkpb.DecryptNextChunk | lkpb.py:115-119 | one look-ahead round: at the end nothing changes; the first read only holds its chunk back; a later one hands the held-back chunk on, and a raising write leaves exactly the plaintext of the chunks written before it |
| Lkpb.DecryptLead | lkpb.py:113-119 | the look-ahead loop writes the plaintext of exactly the lead chunks and holds back the final chunk, unless one of its writes raises |
| Lkpb.FinishOpening | lkpb.py:120-122 | the final part: an unaligned body raises in `finalize()`, an empty one raises on `final_part[-1]`, otherwise the pad-stripped final part is appended |
| Lkpb.Opening | lkpb.py:113-122 | past the tag check only a write error, the `finalize()` error or the `final_part[-1]` error remain; a write error needs a raising write, and the final-part error happens exactly on an empty body |
| Lkpb.OpeningShape | lkpb.py:113-122 | decryption never writes more bytes than the body holds, and succeeds exactly for a non-empty block-aligned body none of whose writes raises |
| Lkpb.OpeningCases | lkpb.py:113-122 | what decrypting an authentic container leaves behind, case by case: a lead write error, an unaligned body, an empty body, the final write error, or success |
| Lkpb.DecryptBody | lkpb.py:110-122 | decrypting the body into the empty output file leaves in it exactly the bytes `Opening` gives, and returns its outcome |
| Lkpb.WriteOpened | lkpb.py:110-122 | after the tag verifies, the output file holds exactly what `Opening` says and the outcome is its outcome |
| Lkpb.DecryptFile | lkpb.py:84-129 | non-containers are skipped. A missing file, a short header or a tag mismatch changes nothing. No file changes unless the container authenticates. An authentic container behaves as `Opening`, and on success the container is removed and the counters move |
| Lkpb.OpeningSealed | lkpb.py:43-129 | decrypting a sealed container with no write error: a length not a multiple of 64 KiB restores the plaintext, an empty plaintext ends in the empty-final-part error, a non-empty multiple comes back pad-stripped |
| Lkpb.RoundTripFiles | lkpb.py:75-76 | after encrypting and decrypting, the files are as before minus the temporary and container names |
| Lkpb.EncryptThenDecrypt | lkpb.py:43-129 | encrypting a file whose length is not a multiple of 64 KiB and whose name has no ".cr", then decrypting its container, restores the file system and counts two files |
| Lkpb.ThreeByteRoundTrip | lkpb.py:43-129 | the container of "abc" decrypts back to "abc", its thirteen pad bytes stripped |

## Left out

- AES-256, SHA-256 and HMAC internals are left out, and so is `h.verify`'s constant-time comparison. They are library code; AES and HMAC appear as abstract function values, and the comparison as plain equality.
- `os.urandom` is left out because it is randomness: the IV is a parameter of `EncryptFile`.
- `get_key` (lkpb.py:34-41) reads a key file and calls `sys.exit`. The key is a 32-byte parameter instead.
- The command-line loop, help text, exit codes, directory traversal and the summary line (lkpb.py:14-32, 131-169) are glue and I/O around the core.
- `print` diagnostics are output only. The broad `except Exception` handlers become `Outcome` values.
- Os-level errors other than a raising `write` on the output file are not modelled: failing `open`, `os.replace`, `os.remove` and `getsize`, and missing permissions. Neither are crash atomicity, or a file that changes while it is read, because these depend on the real file system.
- Lkpb.EncryptFile: requires the path to exist when it is not skipped. In lkpb.py, `os.path.getsize` runs outside the `try` and its exception ends the whole program, which the model does not represent.
- Container.TagTamperDetected: only tampering with the stored tag is proved to be detected. Detecting a changed IV or body, or a wrong key, would need HMAC-SHA-256 to resist forgery, which the abstract HMAC function does not provide.
- Lkpb.DecryptFile: `Failed(NoSuchFile)` stands for the `open` error that the handler catches. The model does not distinguish other reasons `open` can fail.
- Streams.HmacSha256.Update: an HMAC context is modelled as the message fed so far. Reuse after `finalize()` (an error in the library) is not modelled.
- Streams.CbcEncryptor.Finalize: use of a context after `finalize()` (an error in the library) is not modelled.
