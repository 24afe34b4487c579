# Open.Mega client-side encryption, modelled in Dafny

This project models the encryption layer of the Open.Mega client library, the code that encrypts
files on the way up to MEGA and decrypts them on the way down:

- **Streams** (`streams.dfy`). `MegaStream` and its two subclasses `MegaEncryptStream` and
  `MegaDecryptStream` are the classes `MegaStream`, `EncryptStream` and `DecryptStream`. Each
  subclass holds its base object. The mutable fields of the source are mutable fields here: the
  position, the 8-byte counter buffer and the counter, the chunk MAC and the file MAC, the
  meta-MAC, the dispose flag, the decrypt stream's 64 KiB buffers and its next-chunk position.
  The underlying .NET stream is a `Source`, a fixed byte sequence with a read position. Like
  `Stream.Read`, its `Read` may return fewer bytes than asked, but at least one while data
  remains. `Transfer` (`transfer.dfy`) uses the two stream classes as an upload and a download
  do: one read of the whole stream, then `Dispose`.
- **The stream cipher** (`stream_cipher.dfy`). `ProcessChunk` computes a pure function,
  `Process`. It is AES in counter mode (section 6.5 of NIST SP 800-38A): block n of the file is
  xor-ed with the AES encryption of the nonce followed by the 64-bit big-endian counter n. Beside
  it runs a CBC-MAC per chunk, seeded with the nonce twice and folded into a file MAC at every
  chunk boundary. `Dispose` condenses that MAC into the 8-byte meta-MAC. The methods of the
  stream classes are proved against these functions, and the functions carry the round-trip and
  composition lemmas.
- **The chunk plan** (`chunk_plan.dfy`). `GetChunksPositions` has a closed form: a ramp of
  128 KiB, 256 KiB, ... 1 MiB chunks, then steady 1 MiB chunks.
- **Key wrapping and RSA key recovery** (`crypto.dfy`). The block-wise key wrap has a fresh
  zero-IV AES transform per block, which is ECB. Also here are the padding, unwrapping and peeling
  of the four length-prefixed RSA components, and the raw RSA decryption.
- **Helpers** (`extensions.dfy`, `mathex.dfy`, `base64.dfy`). `CopySubArray`, the MPI decoder
  (section 3.2 of RFC 4880), the URL-safe base 64 mapping (section 5 of RFC 4648 without
  padding) over the standard encoding of section 4 of RFC 4648, and `MathEx.Min`.
- **Shared pieces** (`bytes.dfy`, `block_cipher.dfy`, `wrappers.dfy`). Bytes, 16-byte blocks,
  big-endian numbers, C#'s `int` with its truncating and saturating conversions, and the AES
  oracle.

AES is an uninterpreted pair of functions `encrypt`/`decrypt` on 16-byte blocks and keys. The one
fact assumed of it is `BlockCipher.Inverts`, that decryption undoes encryption. That fact is a
hypothesis of the lemmas that need it.

Three behaviours of the code are easy to miss. The model follows the code in each:

- The RSA key is padded by 1 to 16 zero bytes, always. An input whose length is already a
  multiple of 16 also gains a whole block (`Crypto.cs:89`).
- `ProcessChunk` sizes its work by `source.Length - sourceIndex` and never reads its `count`
  argument (`MegaStream.cs:164`).
- The streams are not write- or seek-free in the code: the `Position` setter and `SetLength`
  both move the position (`MegaStream.cs:308-311`, `319-322`).

## Model

| member | source | states |
|---|---|---|
| ChunkPlan.GetChunksPositions | Open.Mega/MegaStream.cs:262-280 | The list holds exactly the chunk boundaries that lie strictly below the size, in order (`IsPlan`). It is empty exactly when the size is at most 131072. Boundary i is listed iff it is below the size. |
| ChunkPlan.RampEndClosedForm | Open.Mega/MegaStream.cs:267-271 | The k-th ramp boundary is 131072·k·(k+1)/2. |
| ChunkPlan.ChunkSize | Open.Mega/MegaStream.cs:267-277 | Chunk i+1 is (i+2)·128 KiB long during the ramp and exactly 1 MiB afterwards. The first boundary is 131072. |
| ChunkPlan.BoundaryIncreasing | Open.Mega/MegaStream.cs:262-280 | Boundaries strictly increase with their index. |
| ChunkPlan.BoundaryAligned | Open.Mega/MegaStream.cs:267-277 | Every boundary is a multiple of 128 KiB, so in particular of the 16-byte block. |
| ChunkPlan.PlanUnique | Open.Mega/MegaStream.cs:262-280 | A size has exactly one plan. |
| ChunkPlan.InPlan | Open.Mega/MegaStream.cs:171 | A position is in the plan iff it is below the size and is a chunk boundary. |
| ChunkPlan.PlanShape | Open.Mega/MegaStream.cs:262-280 | Plan entries strictly increase and are multiples of 128 KiB. |
| StreamCipher.CounterBytesBigEndian | Open.Mega/MegaStream.cs:242-250 | The counter buffer is the 8-byte big-endian encoding of the counter. |
| StreamCipher.CounterBlockValue | Open.Mega/MegaStream.cs:196-198 | The AES input is the nonce followed by the counter bytes. Below 2^64 those bytes read back as the counter. |
| StreamCipher.CounterBlocksBigEndian | Open.Mega/MegaStream.cs:195-198 | Every AES input is the nonce followed by the 8-byte big-endian encoding of the counter. |
| StreamCipher.CounterModeKeystream | Open.Mega/MegaStream.cs:195-200 | Key-stream block n is AES under the file key of the nonce followed by n as 8 big-endian bytes. |
| StreamCipher.KeystreamWraps | Open.Mega/MegaStream.cs:242-249 | The 64-bit counter wraps: block n + 2^64 gets the key stream of block n. |
| StreamCipher.ChunkMacSeed | Open.Mega/MegaStream.cs:180-184 | A new chunk MAC is the nonce written twice. |
| StreamCipher.AbsorbBytes | Open.Mega/MegaStream.cs:202-206 | Absorbing a block xors byte i of the plaintext into byte i of the chunk MAC and leaves the bytes past the block unchanged. |
| StreamCipher.BlockStep | Open.Mega/MegaStream.cs:187-212 | One loop iteration produces as many bytes as it consumes and advances the counter by exactly one. |
| StreamCipher.ProcessOneBlock | Open.Mega/MegaStream.cs:167-213 | Up to one block, the whole transformation is one loop iteration. |
| StreamCipher.CryptOneBlock | Open.Mega/MegaStream.cs:202-204 | Up to one block, the output is the key-stream prefix xor the input. |
| StreamCipher.ChainOneBlock | Open.Mega/MegaStream.cs:171-212 | Up to one block, the MAC chain is one MAC step. |
| StreamCipher.CryptFirst | Open.Mega/MegaStream.cs:202-204 | Output byte r of the first block is key-stream byte r xor input byte r. |
| StreamCipher.CryptTail | Open.Mega/MegaStream.cs:167-187 | Past a full block, the transformation continues with the next counter value. |
| StreamCipher.CryptKeystream | Open.Mega/MegaStream.cs:167-206 | Byte r of block k of the output is byte r of key-stream block counter+k xor the input byte. |
| StreamCipher.CryptLater | Open.Mega/MegaStream.cs:167-206 | The same for k > 0, the inductive step. |
| StreamCipher.CryptByte | Open.Mega/MegaStream.cs:167-206 | Output byte i is key-stream byte i mod 16 of counter + i/16 xor input byte i. |
| StreamCipher.ProcessKeystream | Open.Mega/MegaStream.cs:162-216 | ProcessChunk's output byte i is key-stream byte i mod 16 of counter s.counter + i/16 xor input byte i. This holds in both modes and at any position, so the counter is never reset at chunk boundaries. |
| StreamCipher.CryptTwice | Open.Mega/MegaStream.cs:204 | Applying the same key stream twice gives the data back. |
| StreamCipher.CryptAppend | Open.Mega/MegaStream.cs:167-213 | Transforming whole blocks and then the rest equals transforming everything at once, the second part from counter + blocks. |
| StreamCipher.CryptAppendFront | Open.Mega/MegaStream.cs:167-213 | Output bytes of the first part are unaffected by what follows. |
| StreamCipher.CryptAppendBack | Open.Mega/MegaStream.cs:167-213 | Output bytes of the second part are its own transformation from the later counter. |
| StreamCipher.ChainCounter | Open.Mega/MegaStream.cs:187 | The MAC chain consumes one counter value per block, the last block possibly short. |
| StreamCipher.ChainTail | Open.Mega/MegaStream.cs:167-212 | One unfolding of the MAC chain past a full block. |
| StreamCipher.ChainAppend | Open.Mega/MegaStream.cs:167-213 | The MAC chain over whole blocks and then the rest equals the chain over everything. |
| StreamCipher.ChainAppendStep | Open.Mega/MegaStream.cs:167-213 | The inductive step of ChainAppend. |
| StreamCipher.ChainTailAppend | Open.Mega/MegaStream.cs:167-212 | One MAC step on the first block of a concatenation. |
| StreamCipher.OutputIgnoresMode | Open.Mega/MegaStream.cs:204 | Encryption and decryption produce the same output from the same counter. |
| StreamCipher.ProcessCounter | Open.Mega/MegaStream.cs:187 | Every call advances the counter by the number of (possibly short) blocks. |
| StreamCipher.PlainSideAppend | Open.Mega/MegaStream.cs:205 | The plaintext side of a concatenation is the concatenation of the plaintext sides. |
| StreamCipher.ProcessAppend | Open.Mega/MegaStream.cs:162-216 | Two calls, the first ending on a block boundary, equal one call over both inputs. The second call resumes from the first call's state, |a| positions later. |
| StreamCipher.ProcessAppendOutput | Open.Mega/MegaStream.cs:162-216 | The output half of ProcessAppend. |
| StreamCipher.ProcessAppendState | Open.Mega/MegaStream.cs:162-216 | The MAC-state half of ProcessAppend. |
| StreamCipher.ProcessExtend | Open.Mega/MegaStream.cs:167-213 | One more loop iteration, on the next block, extends the transformation of a prefix to the longer prefix. |
| StreamCipher.ProcessRoundTrip | Open.Mega/MegaStream.cs:162-216 | Decrypting the encryption from the same position and state gives back the plaintext and exactly the same MAC state, because both directions MAC the plaintext. |
| StreamCipher.CondenseMac | Open.Mega/MegaStream.cs:152-156 | Meta-MAC byte i is fileMac[i] xor fileMac[i+4], and byte i+4 is fileMac[i+8] xor fileMac[i+12], for i < 4. |
| StreamCipher.FileRoundTrip | Open.Mega/MegaStream.cs:141-216 | Decrypting an encrypted file restores it. The meta-MAC computed on download equals the one computed on upload. |
| StreamCipher.ProcessPrefix | Open.Mega/MegaStream.cs:167-213 | The first k output bytes, k on a block boundary, depend only on the first k input bytes. |
| StreamCipher.WholeFileExtend | Open.Mega/MegaStream.cs:162-216 | A stream that has transformed the first p bytes of a file (p a multiple of 16) and then transforms the next n has transformed the first p+n. |
| StreamCipher.WholeFilePrefix | Open.Mega/MegaStream.cs:162-216 | A prefix ending on a block boundary, or at the end, transforms into the same prefix of the whole file's output. |
| StreamCipher.ChunkLength | Open.Mega/MegaStream.cs:164 | The chunk length is the smaller of what the source buffer holds past sourceIndex and what remains of the stream. |
| StreamCipher.TruncatedChunkLength | Open.Mega/MegaStream.cs:164 | With 2 GiB left in the stream, the cast-to-int length is negative, while the 64-bit length is 16. |
| StreamCipher.ChunkLengthAgrees | Open.Mega/MegaStream.cs:164 | Below 2 GiB remaining, the cast makes no difference. |
| Streams.ReversedCounter | Open.Mega/MegaStream.cs:244-248 | Reversing the little-endian bytes of the counter gives the big-endian counter bytes. |
| Streams.MegaStream.constructor | Open.Mega/MegaStream.cs:113-121 | The stream starts at position 0 with counter 0, zero MACs and a zero meta-MAC. Its chunk list is the plan of its length. |
| Streams.MegaStream.Read | Open.Mega/MegaStream.cs:136-139 | Reads pass straight through to the underlying stream: the buffer receives the next bytes and the position moves past them. |
| Streams.MegaStream.SetPosition | Open.Mega/MegaStream.cs:308-311 | Sets the position and changes no other field. |
| Streams.MegaStream.SetLength | Open.Mega/MegaStream.cs:319-322 | Sets the position, not the length, and changes no other field. |
| Streams.MegaStream.IncrementCounter | Open.Mega/MegaStream.cs:242-250 | The counter buffer becomes the big-endian bytes of the old counter, and the counter grows by one. Nothing else changes. |
| Streams.MegaStream.ComputeChunk | Open.Mega/MegaStream.cs:252-260 | fileMac becomes AES(fileMac xor chunkMac). Nothing else changes. |
| Streams.MegaStream.StartChunk | Open.Mega/MegaStream.cs:171-185 | At a chunk start, the old chunk MAC is folded into the file MAC except at position 0, and the chunk MAC is reset to the nonce twice. |
| Streams.MegaStream.Advance | Open.Mega/MegaStream.cs:171-187 | Folds and reseeds exactly at chunk starts, then advances the counter. |
| Streams.MegaStream.ProcessBlock | Open.Mega/MegaStream.cs:187-212 | The loop body's output and new MAC state are exactly one BlockStep. |
| Streams.MegaStream.ProcessChunk | Open.Mega/MegaStream.cs:162-216 | For a positive chunk length n: destination[destinationIndex..+n] receives Process(...).output and the MAC state becomes Process(...).state. The rest of the destination is unchanged. Length 0 or less changes nothing. The position is not moved. |
| Streams.MegaStream.ChunkLoop | Open.Mega/MegaStream.cs:167-213 | The loop over the chunk's blocks leaves exactly Process's output and state. |
| Streams.MegaStream.ChunkStep | Open.Mega/MegaStream.cs:169-209 | One pass extends the transformed and written prefix by one block. |
| Streams.MegaStream.TransformStep | Open.Mega/MegaStream.cs:187-212 | One pass's output and state extend Process over the prefix. |
| Streams.MegaStream.Dispose | Open.Mega/MegaStream.cs:141-161 | The first call at the end of the stream folds the last chunk MAC and sets the meta-MAC to Finish of the MAC state. Any other call leaves the MACs and the meta-MAC unchanged. |
| Streams.XorInto | Open.Mega/MegaStream.cs:254-257 | The loop xors the chunk MAC into the file MAC byte by byte. |
| Streams.XorBlock | Open.Mega/MegaStream.cs:202-206 | Output is key stream xor input over inputLength bytes. The chunk MAC absorbs the input when encrypting and the output when decrypting. |
| Streams.Condense | Open.Mega/MegaStream.cs:152-156 | The meta-MAC loop computes CondenseMac. |
| Streams.ArrayCopy | Open.Mega/MegaStream.cs:209 | Array.Copy writes the block at the index and leaves the rest of the array unchanged. |
| Streams.CopyBlock | Open.Mega/MegaStream.cs:209 | A pass's bytes go directly after the bytes of earlier passes. |
| Streams.CopyStretch | Open.Mega/MegaStream.cs:60-77 | Copying the next stretch of a sequence after the stretch already written leaves the joined stretch. |
| Streams.EncryptStream.constructor | Open.Mega/MegaStream.cs:12-15 | The nonce is the first 8 bytes of a second key. The length is the plaintext's length. The base stream is new, its cipher is counter-mode AES under the file key and that nonce, and its chunk list is the plan of the length. The stream starts aligned with nothing produced and the meta-MAC pending. |
| Streams.EncryptStream.ReadAsync | Open.Mega/MegaStream.cs:17-33 | Returns min(count, remaining) and advances the position by it. The buffer at offset receives Process(Encrypt) of exactly the plaintext bytes read, and the MAC state follows. While every read starts on a block boundary, the output so far and the MAC state are those of one pass over the file read so far. The dispose flag and the meta-MAC do not change. |
| Streams.EncryptStream.ReadInput | Open.Mega/MegaStream.cs:19-29 | The short-read loop fills input with min(count, remaining) bytes, exactly the next bytes of the plaintext. |
| Streams.EncryptStream.EncryptInput | Open.Mega/MegaStream.cs:30-32 | ProcessChunk encrypts the bytes read into the buffer, and the position moves past them. |
| Streams.EncryptStream.Dispose | Open.Mega/MegaStream.cs:141-161 | The stream is disposed and the position kept. A first dispose at the end leaves Finish of the MAC state whatever the read sizes were, which after aligned reads of the whole file is MetaMac of the plaintext. A first dispose before the end leaves the zero meta-MAC, and a later dispose leaves it as it was. |
| Streams.DecryptStream.constructor | Open.Mega/MegaStream.cs:41-49 | Position 0, next chunk at 0, the expected meta-MAC kept, new base stream and buffers. The cipher is counter-mode AES under the file key and nonce, the chunk list is the plan of the length, and the file is the first Length bytes of the stream with its one-pass decryption. The invariant holds. |
| Streams.DecryptStream.ReadAsync | Open.Mega/MegaStream.cs:51-85 | Returns min(count, remaining) and advances the position by it. The buffer at offset receives the decrypted file's bytes from the old position on, and the rest of the buffer is unchanged. The invariant is kept: lastChunk holds the decryption of its chunk and the MAC state is that of one pass up to the next chunk. The dispose flag and the meta-MAC do not change. |
| Streams.DecryptStream.ReadPass | Open.Mega/MegaStream.cs:55-83 | One pass of the loop delivers at least one and at most `count` decrypted bytes. |
| Streams.DecryptStream.CopyFromLastChunk | Open.Mega/MegaStream.cs:56-66 | Copies min(ChunkSize - chunkOffset, count, remaining) decrypted bytes from lastChunk. If fewer than asked, the position reaches the next chunk. |
| Streams.DecryptStream.ReadNextChunk | Open.Mega/MegaStream.cs:68-83 | Decrypts the next chunk, then copies min(count, readBytes) of its bytes; that is at least one when bytes remain. |
| Streams.DecryptStream.Deliver | Open.Mega/MegaStream.cs:60-65 | Array.Copy from lastChunk followed by the position update. The bytes delivered are the decrypted file's bytes at the position. |
| Streams.DecryptStream.MoveTo | Open.Mega/MegaStream.cs:65 | Moving the position within the buffered chunk keeps the invariant. |
| Streams.DecryptStream.FillLastChunk | Open.Mega/MegaStream.cs:69-72 | Reads min(ChunkSize, remaining) bytes, decrypts them into lastChunk and moves nextChunkPosition past them. The invariant is kept. |
| Streams.DecryptStream.ReadEncrypted | Open.Mega/MegaStream.cs:69-70 | Reading until the chunk is full (see Findings) fills input with the next min(CHUNKSIZE, remaining) bytes of the encrypted file, whatever the sizes of the underlying reads. |
| Streams.DecryptStream.DecryptChunk | Open.Mega/MegaStream.cs:71-74 | ProcessChunk decrypts the chunk's bytes from input into the front of lastChunk and moves the MAC state on. Nothing else in the base stream changes. |
| Streams.DecryptStream.DecryptInput | Open.Mega/MegaStream.cs:71-74 | lastChunk starts with the decrypted file's stretch at the position, and the MAC state becomes that of one pass up to the chunk's end. |
| Streams.DecryptStream.Dispose | Open.Mega/MegaStream.cs:87-92 | Fails with "File could not be decrypted" iff the meta-MAC differs from the expected one. After a first dispose at the end, the meta-MAC is Finish of one decrypting pass over the file. A first dispose before the end leaves the zero meta-MAC, so it fails iff the expected one is not zero. A later dispose leaves the meta-MAC as it was. |
| Streams.ChunkFilled | Open.Mega/MegaStream.cs:69-72 | Decrypting a full or final chunk at a 64 KiB boundary yields the decrypted file's stretch and the MAC state of a pass up to its end. |
| Streams.DecryptExtend | Open.Mega/MegaStream.cs:68-76 | The same in terms of whole-file passes. The next chunk again starts on a 64 KiB boundary or the file ends. |
| Streams.OffsetInChunk | Open.Mega/MegaStream.cs:58 | Position % CHUNKSIZE is the offset from the chunk start when chunks start on 64 KiB multiples. |
| Streams.NextMultiple | Open.Mega/MegaStream.cs:59 | The next chunk boundary after a full chunk is exactly 64 KiB on. |
| Streams.ChunkMultiple | Open.Mega/MegaStream.cs:58-72 | 64 KiB multiples are block boundaries, and so are they plus 64 KiB. |
| Streams.ChunkSlice | Open.Mega/MegaStream.cs:60 | A stretch of lastChunk is the same stretch of the decrypted file, shifted by the chunk start. |
| Streams.SliceJoin | Open.Mega/MegaStream.cs:60-64 | Two adjacent stretches of a sequence join into one. |
| Streams.ServedPosition | Open.Mega/MegaStream.cs:58-60 | The first branch indexes lastChunk at Position % CHUNKSIZE, so the position served always lies within CHUNKSIZE of the chunk start. |
| Streams.ServedByte | Open.Mega/MegaStream.cs:58-60 | The first branch serves, for position q, the decrypted byte at chunk start + q % CHUNKSIZE. |
| Streams.ServedInPlace | Open.Mega/MegaStream.cs:58-60 | When the chunk starts on a 64 KiB multiple, that is the byte at q. |
| Streams.ShortReadMisplaces | Open.Mega/MegaStream.cs:58-75 | After a short read of r bytes (0 < r < 64 KiB) at a chunk boundary, every later position in the next chunk is served another position's byte. |
| Streams.ShortReadCounter | Open.Mega/MegaStream.cs:69-75 | After a short read of r bytes, ProcessChunk still decrypts min(CHUNKSIZE, remaining) bytes, stale ones included, so the counter ends past the one a pass over the first P + r bytes has. |
| Streams.ShortReadExample | Open.Mega/MegaStream.cs:58-75 | A 32-byte file read 16 bytes at first: counter 2 where one pass over 16 bytes has 1, and position 17 is served the slot of position 33. |
| Streams.SpliceFront | Open.Mega/MegaStream.cs:71-72 | A copy to the start of an array leaves the copied bytes there. |
| Crypto.BlockwiseAppend | Open.Mega/Crypto.cs:26-31 | Block-wise transformation distributes over concatenation of whole blocks. |
| Crypto.BlockwiseExtend | Open.Mega/Crypto.cs:26-31 | One more loop iteration appends the next block's image. |
| Crypto.BlockwiseAt | Open.Mega/Crypto.cs:26-31 | Output block i is the transform of input block i alone. |
| Crypto.EqualBlocksWrapEqually | Open.Mega/Crypto.cs:40-45 | Equal plaintext blocks wrap to equal blocks wherever they stand (no chaining). |
| Crypto.KeyWrapRoundTrip | Open.Mega/Crypto.cs:22-48 | DecryptKey(EncryptKey(x, k), k) == x when AES decryption inverts encryption. |
| Crypto.TransformBlocks | Open.Mega/Crypto.cs:24-33 | Succeeds iff the length is a multiple of 16. The result is then the block-wise transform. |
| Crypto.EncryptKey | Open.Mega/Crypto.cs:36-48 | Succeeds iff the length is a multiple of 16 (the last copy overruns otherwise). The result then has the input's length and is each block AES-encrypted on its own. |
| Crypto.DecryptKey | Open.Mega/Crypto.cs:22-34 | The same with AES decryption. |
| Crypto.PadToBlocks | Open.Mega/Crypto.cs:89 | The padded length is len + (16 - len % 16): a multiple of 16, strictly longer, at most 16 more. The original bytes are kept and the new ones are zero. |
| Crypto.Peel | Open.Mega/Crypto.cs:96-103 | A successful peel of count components returns exactly count values. |
| Crypto.GetRsaPrivateKeyComponents | Open.Mega/Crypto.cs:86-106 | Succeeds iff the zero-padded key, unwrapped block by block under the master key, peels into four MPI numbers. It then returns exactly those four components, in order. |
| Crypto.PeelEncoded | Open.Mega/Crypto.cs:96-103 | Peeling a buffer that starts with the MPI encodings of a list gives back the list. |
| Crypto.RecoverWrappedKey | Open.Mega/Crypto.cs:86-106 | Four MPI-encoded components wrapped with EncryptKey are recovered exactly, whatever the extra padding block decrypts to. |
| Crypto.RsaDecrypt | Open.Mega/Crypto.cs:108-111 | Succeeds iff p·q > 0. |
| Crypto.RsaDecryptValue | Open.Mega/Crypto.cs:108-111 | The bytes read back, big-endian, as data^d mod (p·q), with no leading zero byte. |
| Crypto.ToyKeyPair | Open.Mega/Crypto.cs:108-111 | A concrete key pair (p=3, q=11, d=7) decrypts 8 to the single byte 2. |
| Extensions.CopySubArray | Open.Mega/Extensions.cs:8-24 | Exactly `length` elements. Element i is source[offset+i] where that exists and the default value past the end. So the result is the slice when it fits, and otherwise the rest of the source padded with the default. |
| Extensions.FromMPINumber | Open.Mega/Extensions.cs:26-35 | Defined iff the buffer holds the 2-byte header and the (bits+7)/8 bytes it announces. |
| Extensions.MpiRoundTrip | Open.Mega/Extensions.cs:26-35 | FromMPINumber reads back what the MPI encoding wrote, whatever follows. The header announces the magnitude's exact length. |
| Extensions.MpiIgnoresTail | Open.Mega/Extensions.cs:29-34 | Only the announced bytes are read. |
| Extensions.MinimalLength | Open.Mega/Extensions.cs:29 | The minimal magnitude is (bits+7)/8 bytes long. |
| Extensions.MpiHeader | Open.Mega/Extensions.cs:29 | The header of an encoding announces the magnitude's length. |
| Extensions.Remove | Open.Mega/Extensions.cs:43 | Replace with the empty string leaves no occurrence. |
| Extensions.UrlEncodingAlphabet | Open.Mega/Extensions.cs:40-43 | The URL-safe text contains no '+', '/' or '='. |
| Extensions.UrlReplaced | Open.Mega/Extensions.cs:40-42 | The two replacements give the URL-safe text followed by the padding. |
| Extensions.ToBase64 | Open.Mega/Extensions.cs:37-46 | The result contains no '+', '/' or '='. It is the standard encoding with '+'→'-', '/'→'_' and the padding dropped. |
| Extensions.FromBase64 | Open.Mega/Extensions.cs:48-58 | The decoder receives the input padded with (4 - len % 4) % 4 '=' characters (counted before commas go), with '-'→'+', '_'→'/' and every ',' deleted. |
| Extensions.PadRestored | Open.Mega/Extensions.cs:52 | The padding FromBase64 adds back is the padding ToBase64 removed. |
| Extensions.RestoreMapped | Open.Mega/Extensions.cs:53-54 | Mapping the padded URL-safe text back restores the standard text. |
| Extensions.RestoreUrlEncoding | Open.Mega/Extensions.cs:48-58 | FromBase64's preprocessing of ToBase64's output is the standard encoding exactly. |
| Extensions.Base64RoundTrip | Open.Mega/Extensions.cs:37-58 | FromBase64(ToBase64(x)) == x for a decoder that inverts the standard encoding. |
| Base64.EncodeShape | Open.Mega/Extensions.cs:40 | The standard encoding ends in exactly the padding '=' characters, has none before them, and never contains '-', '_' or ','. |
| MathEx.Min | Open.Mega/Extensions/MathEx.cs:12-22 | An empty list is an ArgumentException. Otherwise the result is an element of the list, is at most every element, and equals the reference minimum. |
| MathEx.Smallest | Open.Mega/Extensions/MathEx.cs:16-21 | The reference minimum is an element of the list and at most every element. |
| MathEx.SmallestIgnoresOrder | Open.Mega/Extensions/MathEx.cs:17-21 | The minimum does not depend on the order of the elements. |
| Bytes.XorCancel | Open.Mega/MegaStream.cs:204 | Xor-ing the same pad twice gives the data back. |
| Bytes.ToBigEndianWraps | Open.Mega/MegaStream.cs:244-249 | The k-byte encoding keeps the value modulo 256^k. |
| Bytes.FromToBigEndian | Open.Mega/MegaStream.cs:244-249 | Decoding the k-byte big-endian encoding gives back any value below 256^k. |
| Bytes.FromMinimalBigEndian | Open.Mega/Crypto.cs:110 | The minimal big-endian encoding reads back as the value. |
| Bytes.Truncate32 | Open.Mega/MegaStream.cs:164 | An unchecked (int) cast of a long keeps the value modulo 2^32. |
| Bytes.Saturate32 | Open.Mega/MegaStream.cs:59-69 | The corrected reading of the `(int)(Length - Position)` casts: the smaller of the value and int.MaxValue. |
| Bytes.SaturateAgrees | Open.Mega/MegaStream.cs:59-69 | Up to int.MaxValue the saturating conversion equals the unchecked cast. At 2^31 the cast gives -2^31 where the saturating one gives int.MaxValue. |
| Transfer.Upload | Open.Mega/MegaStream.cs:10-33 | Reading a whole plaintext stream through an encrypt stream and disposing it gives the one-pass encryption of the file and the file's meta-MAC. |
| Transfer.Download | Open.Mega/MegaStream.cs:36-92 | Reading a whole encrypted stream through a decrypt stream gives the one-pass decryption, and Dispose fails iff the expected meta-MAC is not the one that pass computes. |
| Transfer.RoundTrip | Open.Mega/MegaStream.cs:10-92 | Downloading an upload's output with its key, nonce and meta-MAC gives back the file, and the meta-MAC check passes. |

## Left out

- Asynchrony: `async`, `Task.Run` and cancellation. Both `ReadAsync` methods are sequential
  methods.
- Randomness: the file key and the nonce key that `CreateAesKey` generates are constructor
  parameters of `EncryptStream`.
- AES-128 itself. It is the uninterpreted oracle `BlockCipher.Aes`. `Crypto.EncryptAes` and
  `Crypto.DecryptAes` apply it to one block, which is all a zero-IV, no-padding CBC transform of
  16 bytes does.
- The `BigInteger` class is not part of this model. Big integers are `nat`. Its byte[]
  constructor is read as unsigned big-endian and `getBytes` as the minimal big-endian encoding.
  `modPow` is `Power(data, d) % (p * q)`, and a zero modulus is an error.
- `Convert.ToBase64String` is the standard encoding `Base64.Encode`. `Convert.FromBase64String`
  is a parameter of `Extensions.FromBase64`.
- The `Stream` members that only throw or return constants: `Flush`, `Seek`, `Write`,
  `CanRead`, `CanSeek`, `CanWrite`. Also the `FileKey`, `IV`, `MetaMac` and `Length` getters,
  which are the fields themselves.
- Streams.DecryptStream.ReadAsync: requires an underlying stream that holds at least Length
  bytes. With a shorter stream the loop spins without progress at its end, which is not
  modelled. Short reads are modelled by the corrected ReadEncrypted (see Findings).
- Streams.DecryptStream.FillLastChunk: the `(int)(Length - Position)` cast at
  `MegaStream.cs:69` is modelled as saturating. As written, a remaining length from 2^31 to
  2^32 - 1 casts to a negative count, which `Stream.ReadAsync` rejects with an
  ArgumentOutOfRangeException. A remaining length of 2^32 or more wraps to a smaller count.
- Streams.DecryptStream.CopyFromLastChunk: the `(int)(Length - Position)` cast at
  `MegaStream.cs:59` is modelled as saturating, the intended reading of the cast the
  Findings table records at line 164. Files with 2 GiB or more still to read are not modelled
  as written there.
- Streams.EncryptStream.constructor: requires an underlying stream at position 0, as a stream
  handed to an upload is.
- Streams.MegaStream.ProcessChunk: uses the corrected 64-bit chunk length (see Findings), and
  positions and lengths are unbounded integers. `long` overflow of the position is not modelled.
  The counter is an unbounded integer whose bytes wrap modulo 2^64 (`KeystreamWraps`). The decrypt stream's ghost
  `file`, `plain` and `macAt` name the encrypted file, its decryption and the MAC state after
  each prefix. They are specification state, not fields of the code.
- Aliasing: `ProcessChunk` requires distinct source and destination arrays, and the decrypt
  stream's buffer must not be one of its own 64 KiB buffers.
- Streams.EncryptStream.ReadAsync: `count` and `offset` are unbounded integers, not 32-bit
  ints. The link to a single pass over the file is stated only for reads that start on a
  16-byte boundary (`aligned`). A read that starts mid-block restarts the key stream at a new
  counter, and the code does that too.

## Findings

| source | as written | input that shows it | evidently intended | confidence | as-written member | corrected member |
|---|---|---|---|---|---|---|
| Open.Mega/MegaStream.cs:164 | `Math.Min(source.Length - sourceIndex, (int)(_streamLength - _position))` casts the remaining stream length to a 32-bit int | 2^31 bytes left in the stream and a 16-byte source: the cast gives -2^31, so the chunk length is negative and nothing is transformed | the smaller of the buffer length and the 64-bit remaining length, so that files of 2 GiB or more are transformed | not executed | StreamCipher.ChunkLengthAsWritten (shown by StreamCipher.TruncatedChunkLength) | StreamCipher.ChunkLength |
| Open.Mega/MegaStream.cs:69-75 | one `base.ReadAsync` per chunk, and `ProcessChunk` then decrypts min(CHUNKSIZE, Length - Position) bytes of `_input`, whatever the read returned | a 32-byte file whose underlying stream returns 16 bytes to the first read: the stale input bytes 16 to 31 are decrypted too, the counter ends at 2 instead of 1, and a later read at position 17 is served `_lastChunk[17]`, the slot of position 33 | read until the chunk holds min(CHUNKSIZE, Length - Position) bytes or the stream ends, so that chunks start on 64 KiB multiples | not executed | Streams.ShortReadCounter, Streams.ShortReadMisplaces (shown by Streams.ShortReadExample) | Streams.DecryptStream.ReadEncrypted |
