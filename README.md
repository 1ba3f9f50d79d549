# sec: the streaming chunked-AEAD container, in Dafny

`sec` encrypts a stream with a passphrase. The container it writes is:
- a random 32-byte salt;
- a random 24-byte XChaCha20-Poly1305 base nonce;
- one sealed chunk for every non-empty `Read` of at most 64 KiB from the input.

The key comes from Argon2id with t=1, m=64 MiB, p=4 and a 32-byte output. Chunk k is sealed under the base nonce with the little-endian uint64 counter in bytes 16..23 advanced by k (`incrementNonce`).

Decryption does the following:
- reads the salt and the nonce with `io.ReadFull`;
- opens every non-empty `Read` of at most 64 KiB + 16 bytes as one chunk;
- stops at the first chunk that does not open, with the error "bad password or corrupt data".

This project models `incrementNonce`, `encryptStream` and `decryptStream` of `main.go`, and the constants they use.

Modules:
- `Bytes` (bytes.dfy): the `byte` type, little-endian encode and decode standing for `binary.LittleEndian`, and concatenation. The same file holds `Format`, the constants of `main.go` (`ChunkSize`, `KeySize`, `SaltSize`, `NonceSize`), the Poly1305 tag length and the Argon2id parameters.
- `Nonce` (nonce.dfy): the 24-byte nonce and its counter. `IncrementNonce` updates an `array<byte>` in place. `NonceAt(base, k)` is the nonce of chunk k.
- `Primitives` (primitives.dfy): Argon2id and XChaCha20-Poly1305, kept abstract as a `Suite` of three functions. `Suite.Sound()` lists everything the codec relies on:
  - the derived key is 32 bytes;
  - sealing adds 16 bytes;
  - opening a sealed chunk under the same key and nonce gives the plaintext back;
  - a ciphertext shorter than the tag never opens.
- `Streams` (streams.dfy): the `io.Reader` and the `io.Writer`.
  - A `Source` holds a script of read results: bytes plus no error, `io.EOF` or another error. Each `Read` returns the next scripted result, or as many of its bytes as fit in the buffer.
  - A `Sink` records each accepted `Write` and refuses the writes whose position is in its `refuses` set.
- `Codec` (codec.dfy): `ReadFull`, `EncryptStream` and `DecryptStream`, imperative methods over the reused `buf`, the mutable `chunkNonce` array and the sink.
  - Each method is proved equal to a pure run of the same loop (`FullRead`, `Encrypted`, `Decrypted`).
  - For each run, the methods return the same outcome, leave the same writes in the sink and the same reads unread.
- `Properties` (properties.dfy): what those runs do:
  - the container layout;
  - one sealed chunk per non-empty read, chunk i under the nonce of chunk i;
  - the first chunk that fails to open ends decryption;
  - what a refused write leaves behind;
  - short headers;
  - the round trip when decryption's reads are exactly encryption's writes.
- `Alignment` (alignment.dfy): the finding below.
  - A counterexample shows that the codec as written fails to decrypt its own output when the reads split it differently.
  - A corrected pair of loops seals and opens fixed-size chunks, each filled with `io.ReadFull`. For them the round trip holds for every error-free split of the bytes into reads.
  - `Codec` and `Properties` keep the code as written; the corrected loops live only in `Alignment`.

Salt and nonce, which `main.go` draws from `crypto/rand`, are parameters. The password is a byte string.

## Model

| member | source | states |
|---|---|---|
| Bytes.LeValue | main.go:196 | `binary.LittleEndian.Uint64` of s: byte 0 least significant; the value is below 256 to the power of the length of s |
| Bytes.LeBytes | main.go:198 | `binary.LittleEndian.PutUint64` of a value: exactly n bytes, least significant first |
| Bytes.LeValueOfBytes | main.go:196-198 | putting a value below 256^n into n little-endian bytes and reading them back gives the value: PutUint64 then Uint64 is the identity |
| Bytes.LeBytesOfValue | main.go:196-198 | reading n little-endian bytes and putting the value back into n bytes gives the same bytes |
| Bytes.LeValueInjective | main.go:196 | two counters of the same width with the same uint64 value are the same bytes |
| Bytes.LeValueAllOnes | main.go:196 | n bytes of 0xFF read as 256^n - 1, for eight bytes the largest uint64 |
| Nonce.Counter | main.go:195-196 | the counter is bytes 16..23 read as a little-endian uint64, always below 2^64 |
| Nonce.WithCounter | main.go:198 | overwriting the counter bytes keeps the nonce 24 bytes long |
| Nonce.WithCounterParts | main.go:195-198 | writing a counter value into the nonce keeps bytes 0..15 and makes the counter read back as that value |
| Nonce.NonceExt | main.go:195 | a nonce is determined by its first 16 bytes and its counter |
| Nonce.Incremented | main.go:194-199 | the nonce incrementNonce leaves behind: 24 bytes, the counter read from bytes 16..23, one added modulo 2^64, and written back; `Nonce.IncrementedCounter` states what it keeps and what it changes |
| Nonce.IncrementedCounter | main.go:194-199 | incrementing keeps bytes 0..15, makes the counter old + 1 modulo 2^64, and old + 1 when that does not overflow |
| Nonce.IncrementWraps | main.go:196-198 | an all-0xFF counter wraps to eight zero bytes and the first 16 bytes are unchanged; no error is raised |
| Nonce.NonceAt | main.go:128-138 | the nonce chunk k is sealed or opened under: 24 bytes, the base nonce with its counter advanced by k modulo 2^64; `Nonce.NonceAtZero` and `Nonce.NonceAtNext` tie it to the copy of the base nonce and to the increments after each chunk |
| Nonce.NonceAtZero | main.go:128-129 | chunk 0 is sealed or opened under the base nonce itself |
| Nonce.NonceAtNext | main.go:128-138 | incrementing the nonce of chunk k gives the nonce of chunk k + 1, so after k increments the nonce is the base with its counter advanced by k modulo 2^64 |
| Nonce.NoncesDistinct | main.go:128-138 | within fewer than 2^64 chunks, two different chunk indices never get the same nonce |
| Nonce.NoncesCycle | main.go:197 | nothing stops the counter from wrapping: chunk k + 2^64 reuses the nonce of chunk k |
| Nonce.IncrementNonce | main.go:194-199 | in place on a 24-byte array: the new contents are the incremented nonce, bytes 0..15 are unchanged, and the counter is the old one + 1 modulo 2^64 |
| Primitives.DeriveKey | main.go:121 | the key is Argon2id with t=1, m=64*1024, p=4 and 32 bytes of output, so it has KeySize bytes |
| Streams.NextRead | main.go:132 | one Read into a buffer of max bytes returns at most max bytes; an exhausted source reports io.EOF with no bytes; every Read on a non-empty script makes progress |
| Streams.NextReadKeepsBytes | main.go:132 | a Read loses no byte and invents none; an error-free script stays error-free and reports io.EOF exactly once it is used up |
| Streams.NextReadWhole | main.go:173 | a Read whose buffer holds the whole next scripted result returns exactly that result |
| Streams.AsReads | main.go:173 | a script whose reads deliver the given byte strings in order, with no error |
| Streams.FlattenAsReads | main.go:173 | reads that deliver the writes one by one deliver the written byte stream |
| Streams.Source.Read | main.go:132 | `in.Read(buf[lo:])`: fills buf[lo..lo+n] with what the next Read delivers, leaves the rest of buf alone, and advances the script |
| Streams.Sink.Write | main.go:114-118 | `out.Write(p)`: fails exactly when this write position is refused, and records p if and only if it succeeds |
| Codec.FullReadFrom | main.go:151-158 | io.ReadFull never succeeds with other than the requested number of bytes |
| Codec.FullRead | main.go:151-158 | `io.ReadFull` into a fresh buffer of need bytes, as the pure run of its loop: when it succeeds it delivers exactly need bytes |
| Codec.ReadFull | main.go:151-158 | the `io.ReadFull` loop into an array: Done exactly when the pure io.ReadFull succeeds, with the array then holding the bytes read; otherwise its error (io.EOF, io.ErrUnexpectedEOF or the read error) |
| Codec.SealLoop | main.go:131-147 | encryptStream's chunk loop from chunk k: each non-empty read is sealed under the nonce of chunk k and written, then the nonce advances; a refused write returns the write error, io.EOF returns nil after the last chunk, and any other read error is returned after it; `Properties.SealLoopKeeps` and `Properties.SealLoopShape` state what the run does |
| Codec.Encrypted | main.go:104-148 | a whole encryptStream call: the salt is written, then the nonce, and a refused write of either returns the write error; then `SealLoop` runs from chunk 0 under the Argon2id key of the password and salt; `Properties.EncryptedKeeps` and `Properties.EncryptShape` state what it does |
| Codec.OpenLoop | main.go:172-191 | decryptStream's chunk loop from chunk k: each non-empty read of at most 64 KiB + 16 bytes is opened under the nonce of chunk k; a chunk that does not open returns "bad password or corrupt data", a refused write returns the write error, and otherwise the plaintext is written and the nonce advances; the reads end the loop as in `SealLoop`; `Properties.OpenLoopKeeps` and `Properties.OpenLoopShape` state what the run does |
| Codec.Decrypted | main.go:149-192 | a whole decryptStream call: io.ReadFull of the 32-byte salt, then of the 24-byte nonce, each returning its error on failure; then `OpenLoop` from chunk 0 under the Argon2id key; `Properties.DecryptedKeeps` and `Properties.DecryptAligned` state what it does |
| Codec.OpenLoopMore | main.go:172-183 | a turn of decryptStream's loop that neither fails nor ends leaves the rest of the loop to run from the next nonce, on the reads left, with the plaintext written |
| Codec.EncryptStream | main.go:104-148 | encryptStream's outcome, writes and unread input are exactly those of the pure run `Encrypted`: salt, nonce, then the chunk loop, stopping at the first refused write |
| Codec.EncryptChunks | main.go:127-147 | the chunk loop with its reused buffer and in-place nonce: after k sealed chunks the nonce array holds the nonce of chunk k, and the whole loop equals `SealLoop` |
| Codec.DecryptStream | main.go:149-192 | decryptStream's outcome, writes and unread input are exactly those of the pure run `Decrypted`: io.ReadFull of the salt and the nonce, then the chunk loop |
| Codec.DecryptChunks | main.go:166-191 | the decryption chunk loop with a buffer of ChunkSize + 16 bytes and in-place nonce equals `OpenLoop` |
| Properties.Chunks | main.go:131-139 | the chunks of a loop are the non-empty reads up to the terminating one, each between 1 and the buffer size bytes |
| Properties.EndOutcome | main.go:140-147 | a loop that is not cut short ends with Done at io.EOF or with the read error itself, never anything else |
| Properties.Sealed | main.go:134 | sealing keeps the number of chunks |
| Properties.SealedNonces | main.go:134-138 | sealed chunk i is the i-th chunk sealed under the nonce of chunk k + i |
| Properties.Opened | main.go:175-178 | opening never yields more plaintexts than there are chunks |
| Properties.OpenedNonces | main.go:175-182 | plaintext i is what chunk i opens to under the nonce of chunk k + i, and when fewer plaintexts than chunks come out, the next chunk is one that does not open |
| Properties.SealLoopKeeps | main.go:131-147 | encryptStream's loop only appends to what was written, and returns nil, the write error or a read error, nothing else |
| Properties.OpenLoopKeeps | main.go:172-191 | decryptStream's loop only appends to what was written, and returns nil, "bad password or corrupt data", the write error or a read error |
| Properties.EncryptedKeeps | main.go:114-147 | encryptStream only appends; unless a write is refused, the salt and then the nonce are its first two writes; it returns nil, the write error or a read error |
| Properties.DecryptedKeeps | main.go:149-158 | decryptStream only appends, and a header cut short by io.EOF or io.ErrUnexpectedEOF writes nothing |
| Properties.SealLoopShape | main.go:131-147 | with every write accepted, the loop writes exactly one sealed chunk per non-empty read, in read order, chunk i under the nonce of chunk k + i, and ends as its reads end |
| Properties.OpenLoopShape | main.go:172-191 | with every write accepted, the loop writes the plaintexts of the chunks up to the first that fails to open; it then returns "bad password or corrupt data", and otherwise ends as its reads end |
| Properties.SealLoopRefused | main.go:135-138 | a refused write ends the loop with that error; the writes made are always a prefix of the all-accepted run, so no chunk is skipped and the nonce never advances past an unwritten chunk |
| Properties.OpenLoopRefused | main.go:179-182 | the same for decryption: a refused plaintext write ends the loop, keeping exactly the plaintexts written before it |
| Properties.ChunksKeepBytes | main.go:131-146 | with no read error, the chunks together are every input byte in order, and the loop ends with Done |
| Properties.ChunksOfAligned | main.go:172-174 | reads delivering non-empty strings that fit the buffer make exactly those strings the chunks |
| Properties.SealedFit | main.go:167-168 | a sealed 1..65536-byte chunk is 17..65552 bytes, so it fits decryption's buffer whole and is never shorter than a tag |
| Properties.OpenedCons | main.go:175-182 | after a chunk that opens, opening continues with the next chunk under the next nonce |
| Properties.OpenSealed | main.go:172-182 | opening chunks sealed under the same key and nonces gives each plaintext back, then opening continues with what follows |
| Properties.FullReadFromNoErrors | main.go:151-158 | io.ReadFull from an error-free script succeeds with exactly the next bytes when enough remain; otherwise it reports io.EOF if no byte at all came and io.ErrUnexpectedEOF if some did |
| Properties.FullReadNoErrors | main.go:151-158 | the same for a fresh io.ReadFull of need bytes |
| Properties.ShortHeader | main.go:151-158 | an input shorter than 56 bytes writes nothing; it fails with io.EOF when it is empty or holds exactly the 32 salt bytes, and with io.ErrUnexpectedEOF otherwise |
| Properties.DecryptAlignedHeader | main.go:151-160 | a header delivered as a salt read and a nonce read is taken as is: decryption continues with the chunk loop keyed by that salt from that nonce |
| Properties.EncryptShape | main.go:114-147 | the writes are the salt, the base nonce, then chunk i of the input sealed under the nonce of chunk i; the outcome is how the reads end |
| Properties.EncryptLayout | main.go:114-138 | the output starts with the 56-byte header salt ‖ nonce; each later write is one non-empty read of at most 65536 bytes, 16 bytes longer once sealed, sealed under the base nonce advanced by the chunk's index |
| Properties.EmptyInput | main.go:127-147 | an input with no bytes gives only the 56-byte header and Done |
| Properties.DecryptAligned | main.go:149-191 | when each read after the header delivers one whole chunk, the chunks are opened in order under the nonces of chunks 0, 1, ...; the output is their plaintexts up to the first that fails, and the outcome is Done or "bad password or corrupt data" |
| Properties.RoundTrip | main.go:104-192 | decrypting, with the same password, reads that are exactly the writes of an error-free encryption succeeds; it writes one plaintext per encrypted read, and together they are the input bytes |
| Properties.OpenedAt | main.go:175-182 | plaintext i of the opened chunks is what chunk i opens to under the nonce of chunk k + i |
| Properties.OpenedStop | main.go:175-178 | the chunk where opening stops is one that does not open under its nonce |
| Alignment.MisalignedReadsFail | main.go:172-178 | with a suite meeting every assumption the codec makes, encrypting two one-byte reads under any salt and nonce succeeds, and decrypting the output write by write gives both bytes back; the same 90 bytes delivered by a single Read fail with "bad password or corrupt data" |
| Alignment.ToySuiteSound | main.go:133 | a suite whose seal appends a 16-byte tag taken from the nonce, and whose open checks and strips it, meets every assumption the codec makes of XChaCha20-Poly1305 |
| Alignment.ToyTagsDiffer | main.go:138 | the toy tags of chunks 0 and 1, bytes 8..23 of their nonces, differ, because incrementNonce changed the counter |
| Alignment.OneReadHeader | main.go:151-173 | when one Read delivers the header and some ciphertext, decryptStream takes the salt and the nonce from it and hands the rest, still as one Read, to the chunk loop |
| Alignment.ToyOpenJoined | main.go:175-178 | two sealed chunks opened together as one, under the nonce of the first, do not open |
| Alignment.Fill | main.go:151-158 | io.ReadFull keeping what arrived: at most the buffer size, exactly the buffer size when no end of input or error came first, and each filled buffer consumes input |
| Alignment.FillIsFullRead | main.go:151-158 | `Fill` is io.ReadFull with the partial bytes kept: it fills the buffer exactly when `FullReadFrom` succeeds, then with the same bytes; an end of input that came first is io.EOF with nothing read and io.ErrUnexpectedEOF otherwise; a read error is passed on; and both leave the same reads unread |
| Alignment.FillNoErrors | main.go:151-158 | io.ReadFull on reads with no error delivers the next full buffer of bytes while enough remain, otherwise all that is left together with the end of input |
| Alignment.BlocksFrame | main.go:131-132 | cutting bytes into fixed-size blocks loses no byte, and every block is full except a non-empty last one |
| Alignment.FixedSealLoop | main.go:131-138 | the corrected encryption loop: each chunk is filled with `io.ReadFull` to 64 KiB, or is the shorter last one, and is sealed under the nonce of its index; it ends with nil at the end of input or with the read error; `Alignment.FixedSealLoopKeeps` and `Alignment.FixedSealLoopShape` state what it does |
| Alignment.FixedEncrypted | main.go:104-148 | the corrected encryptStream: the salt, the nonce, then `FixedSealLoop` from chunk 0 under the Argon2id key; `Alignment.FixedEncryptedKeeps` states what it does |
| Alignment.FixedOpenLoop | main.go:172-182 | the corrected decryption loop: each chunk is filled with `io.ReadFull` to 64 KiB + 16 bytes, or is the shorter last one, and is opened under the nonce of its index; a chunk that does not open returns "bad password or corrupt data"; `Alignment.FixedOpenLoopKeeps` and `Alignment.FixedOpenLoopShape` state what it does |
| Alignment.FixedDecrypted | main.go:149-192 | the corrected decryptStream: the header read as decryptStream reads it, then `FixedOpenLoop` from chunk 0; `Alignment.FixedDecryptedKeeps` and `Alignment.FixedRoundTrip` state what it does |
| Alignment.FixedSealLoopKeeps | main.go:131-147 | the corrected encryption loop only appends, and returns nil or a read error |
| Alignment.FixedOpenLoopKeeps | main.go:172-191 | the corrected decryption loop only appends, and returns nil, "bad password or corrupt data" or a read error |
| Alignment.FixedEncryptedKeeps | main.go:114-147 | the corrected encryptStream writes the salt then the nonce first, and returns nil or a read error |
| Alignment.FixedDecryptedKeeps | main.go:149-158 | the corrected decryptStream writes nothing when the header is cut short by io.EOF or io.ErrUnexpectedEOF |
| Alignment.FixedOpenEmpty | main.go:172-186 | error-free reads that deliver no byte end the corrected decryption loop with nil, writing nothing |
| Alignment.FixedOpenFirst | main.go:172-182 | when error-free reads start with a sealed chunk that opens, a full buffer of it writes its plaintext and hands the bytes after it to the next turn under the next nonce; a shorter last chunk writes its plaintext and ends with nil |
| Alignment.FixedSealLoopShape | main.go:131-138 | the corrected encryption loop, with no read error, seals the input cut into 64 KiB blocks, block i under the nonce of chunk k + i, and ends with Done |
| Alignment.SealedHead | main.go:167-168 | the first of the sealed fixed-size chunks opens under its nonce, and it fills decryption's whole buffer of 64 KiB + 16 bytes unless it is the last |
| Alignment.FixedOpenLoopShape | main.go:172-182 | the corrected decryption loop opens the sealed blocks however its reads split their bytes, and writes every plaintext back, ending with Done |
| Alignment.FixedHeader | main.go:151-160 | reads without errors that deliver a header and a body give the loop the salt and nonce of the header and exactly the body |
| Alignment.FixedRoundTrip | main.go:104-192 | with the corrected loops, decrypting any error-free reads of a completed encryption's bytes, with the same password, succeeds and gives back every input byte in order |
| Properties.TruncatedTail | main.go:174-178 | when each write of an encryption and a trailing fragment shorter than the tag are delivered by their own Read, decryption fails with "bad password or corrupt data" after writing every chunk's plaintext |

## Left out

- `main` (main.go:41-101): flag parsing, the `SEC_TOOL_PASS` environment fallback, opening files, the `.tmp` file and the rename.
- `crypto/rand.Read` (main.go:107-112): salt and nonce are parameters of any value of the right length, and the error path of the random source is not modelled.
- `chacha20poly1305.NewX` errors (main.go:122-125, 161-164) are not modelled. NewX fails only for a key that is not 32 bytes, and the derived key always is (`Primitives.DeriveKey`).
- The internals of Argon2id and XChaCha20-Poly1305 are not modelled. Only the four facts in `Suite.Sound()` are assumed, so nothing is proved about detecting tampered data or a wrong password beyond ciphertexts shorter than the tag.
- `aead.Overhead()` (main.go:167) is the constant 16.
- `Streams.Sink.Write`: a write is all-or-nothing; a short write with an error is modelled as a refused write that writes nothing.
- `Streams.Source.Read`: a Read writes only the bytes it returns into the buffer; Go allows a reader to use the rest of the buffer as scratch space, which would not change any result here.
- `Properties.RoundTrip` is proved only when decryption's reads are exactly the writes of encryption. Nothing in `main.go` aligns decryption's reads with encryption's chunk boundaries, so the round trip does not hold for every read pattern (see Findings).
- The corrected loops in `Alignment` are pure functions with every write accepted. They are not written out as imperative methods over buffers like `Codec`'s.
- `main.go` has no separate error for a truncated header or for a trailing fragment shorter than the tag. A short header gives io.ReadFull's error (`Properties.ShortHeader`), and a short fragment fails to open (`Properties.TruncatedTail`).
- `Properties.TruncatedTail` is proved only when the fragment arrives in a Read of its own. When one Read delivers a short last chunk together with the fragment, that chunk fails to open as well, so its plaintext is not written either.
- `main.go` does not refuse inputs whose chunk count would wrap the 64-bit counter. `Nonce.NoncesCycle` states the nonce reuse after 2^64 chunks.

## Findings

| source | as written | input that shows it | evidently intended | confidence | as-written member | corrected member |
|---|---|---|---|---|---|---|
| main.go:172-173 | decryptStream opens whatever one `in.Read(buf)` returns as one chunk. encryptStream seals whatever one `in.Read` returns (main.go:131-132), so chunk boundaries exist only in the pattern of reads. | The input is read as the byte 1, then the byte 2. Its 90 encrypted bytes reach decryption in a single Read, as a file read with a 64 KiB + 16 byte buffer delivers them. | Fixed-size chunks, each filled with `io.ReadFull`, so that the output decrypts however its bytes are split into reads. This is how the header is already read, and what the comment "Works for both Files and Pipes" promises. | high; not executed | Alignment.MisalignedReadsFail | Alignment.FixedRoundTrip |
