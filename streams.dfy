/**
 * MegaStream.cs: the streams that encrypt a file on its way up and decrypt it on its way down,
 * computing the MAC chain as the bytes pass. The underlying .NET stream is a Source; the base
 * class MegaStream and its two subclasses are classes here, each subclass holding its base.
 */
module Streams {
  import opened Bytes
  import opened Wrappers
  import opened StreamCipher
  import BlockCipher
  import ChunkPlan
  import Crypto
  import MathEx
  import Extensions

  /**
   * The stream MegaStream reads from: fixed contents and a read position. A read may return
   * fewer bytes than asked (any positive number while data remains), as Stream.Read may.
   */
  class Source {
    const data: seq<byte>
    var pos: nat

    ghost predicate Valid()
      reads this
    {
      pos <= |data|
    }

    constructor (data: seq<byte>)
      ensures Valid() && this.data == data && pos == 0
    {
      this.data := data;
      pos := 0;
    }

    /** Stream.Read: copies the next bytes into buffer[offset..] and returns how many. */
    method Read(buffer: array<byte>, offset: int, count: int) returns (n: int)
      requires Valid()
      requires 0 <= offset && 0 <= count && offset + count <= buffer.Length
      modifies this, buffer
      ensures Valid()
      ensures 0 <= n <= count && pos == old(pos) + n
      ensures n == 0 <==> count == 0 || old(pos) == |data|
      ensures buffer[..] == old(buffer[..offset]) + data[old(pos)..pos] + old(buffer[offset + n..])
    {
      var most := if count <= |data| - pos then count else |data| - pos;
      n :| 0 <= n <= most && (n == 0 <==> most == 0);
      forall j | 0 <= j < n {
        buffer[offset + j] := data[pos + j];
      }
      pos := pos + n;
    }
  }

  /** BitConverter.GetBytes(long) on a little-endian machine: byte i is base-256 digit i of n. */
  function LittleEndian64(n: nat): (r: seq<byte>)
    ensures |r| == 8
  {
    [Digit(n, 0), Digit(n, 1), Digit(n, 2), Digit(n, 3), Digit(n, 4), Digit(n, 5), Digit(n, 6), Digit(n, 7)]
  }

  /** Array.Reverse. */
  function Reverse(s: seq<byte>): (r: seq<byte>)
    ensures |r| == |s|
  {
    seq(|s|, i requires 0 <= i < |s| => s[|s| - 1 - i])
  }

  /** The reversed little-endian bytes are the big-endian counter bytes. */
  lemma ReversedCounter(n: nat)
    ensures Reverse(LittleEndian64(n)) == CounterBytes(n)
  {
    assert forall i | 0 <= i < 8 :: CounterBytes(n)[i] == Digit(n, 7 - i);
  }

  /**
   * The state shared by both directions: the constants given at construction and the chunk
   * plan, the position, the 8-byte counter buffer and the counter, the chunk and file MACs, the
   * meta-MAC and whether Dispose ran.
   */
  class MegaStream {
    const stream: Source
    const streamLength: int
    const fileKey: Block
    const iv: Nonce
    const aes: BlockCipher.Aes
    const chunksPositions: seq<nat>
    var position: int
    var metaMac: seq<byte>
    var counter: seq<byte>
    var currentCounter: nat
    var currentChunkMac: Block
    var fileMac: Block
    var isDisposing: bool

    /** The AES counter-mode cipher these constants make, as the constructor fixes it. */
    const cipher: StreamCipher.Cipher

    /** The cipher is the one of the AES oracle, the file key, the nonce and the chunk plan. */
    ghost predicate Keyed()
    {
      cipher.aes == aes && cipher.key == fileKey && cipher.iv == iv && cipher.chunks == chunksPositions
      && forall n: nat {:trigger CounterBlock(iv, n)} :: cipher.keystream(n) == aes.encrypt(fileKey, CounterBlock(iv, n))
    }

    /** The MAC state ProcessChunk carries between calls. */
    function Mac(): MacState
      reads this
    {
      MacState(currentCounter, currentChunkMac, fileMac)
    }

    /** The fields ProcessChunk leaves alone. */
    function Rest(): (int, seq<byte>, bool)
      reads this
    {
      (position, metaMac, isDisposing)
    }

    /** The meta-MAC and the counter buffer have 8 bytes each. */
    ghost predicate Valid()
      reads this
    {
      Keyed() && |metaMac| == 8 && |counter| == 8
    }

    /** Until Dispose runs, the meta-MAC keeps the zeros the constructor gave it. */
    ghost predicate MetaMacPending()
      reads this
    {
      !isDisposing ==> metaMac == Zeros(8)
    }

    constructor (stream: Source, streamLength: int, fileKey: Block, iv: Nonce, aes: BlockCipher.Aes)
      ensures Valid() && ChunkPlan.IsPlan(streamLength, chunksPositions)
      ensures this.stream == stream && this.streamLength == streamLength
      ensures this.fileKey == fileKey && this.iv == iv && this.aes == aes
      ensures cipher == MegaCipher(aes, fileKey, iv, chunksPositions)
      ensures position == 0 && Mac() == InitialState && metaMac == Zeros(8) && !isDisposing
    {
      this.stream := stream;
      this.streamLength := streamLength;
      var plan := ChunkPlan.GetChunksPositions(streamLength);
      chunksPositions := plan;
      this.fileKey := fileKey;
      this.iv := iv;
      this.aes := aes;
      cipher := MegaCipher(aes, fileKey, iv, plan);
      position := 0;
      metaMac := Zeros(8);
      counter := Zeros(8);
      currentCounter := 0;
      currentChunkMac := Zeros(16);
      fileMac := Zeros(16);
      isDisposing := false;
    }

    /** Read: passes straight through to the underlying stream. */
    method Read(buffer: array<byte>, offset: int, count: int) returns (n: int)
      requires stream.Valid()
      requires 0 <= offset && 0 <= count && offset + count <= buffer.Length
      modifies stream, buffer
      ensures stream.Valid()
      ensures 0 <= n <= count && stream.pos == old(stream.pos) + n
      ensures n == 0 <==> count == 0 || old(stream.pos) == |stream.data|
      ensures buffer[..] == old(buffer[..offset]) + stream.data[old(stream.pos)..stream.pos] + old(buffer[offset + n..])
    {
      n := stream.Read(buffer, offset, count);
    }

    /** The Position setter. */
    method SetPosition(value: int)
      modifies this`position
      ensures position == value
    {
      position := value;
    }

    /** SetLength: moves the position (not the length) to the given value. */
    method SetLength(value: int)
      modifies this`position
      ensures position == value
    {
      position := value;
    }

    /** IncrementCounter: writes the counter, big-endian, into the counter buffer, then increments it. */
    method IncrementCounter()
      requires Valid()
      modifies this
      ensures Valid()
      ensures currentCounter == old(currentCounter) + 1 && counter == CounterBytes(old(currentCounter))
      ensures currentChunkMac == old(currentChunkMac) && fileMac == old(fileMac) && Rest() == old(Rest())
    {
      var bytes := LittleEndian64(currentCounter);
      currentCounter := currentCounter + 1;
      bytes := Reverse(bytes);
      counter := bytes;
      ReversedCounter(currentCounter - 1);
    }

    /** ComputeChunk: xors the chunk MAC into the file MAC, then encrypts the file MAC. */
    method ComputeChunk()
      requires Keyed()
      modifies this
      ensures fileMac == FoldMac(cipher, old(fileMac), old(currentChunkMac))
      ensures currentChunkMac == old(currentChunkMac) && currentCounter == old(currentCounter)
      ensures counter == old(counter) && Rest() == old(Rest())
    {
      var mixed := XorInto(fileMac, currentChunkMac);
      fileMac := Crypto.EncryptAes(aes, mixed, fileKey);
    }

    /** The chunk-boundary step of ProcessChunk's loop: fold the finished chunk MAC, reseed. */
    method StartChunk(pos: nat)
      requires Valid() && IsChunkStart(cipher, pos)
      modifies this
      ensures Valid()
      ensures fileMac == if pos != 0 then FoldMac(cipher, old(fileMac), old(currentChunkMac)) else old(fileMac)
      ensures currentChunkMac == ChunkMacSeed(iv)
      ensures currentCounter == old(currentCounter) && Rest() == old(Rest())
    {
      if pos != 0 {
        ComputeChunk();
      }
      var seed := currentChunkMac;
      for i := 0 to 8
        invariant |seed| == 16
        invariant forall j | 0 <= j < i :: seed[j] == iv[j] && seed[j + 8] == iv[j]
      {
        seed := seed[i := iv[i]][i + 8 := iv[i]];
      }
      assert seed == ChunkMacSeed(iv);
      currentChunkMac := seed;
    }

    /**
     * The start of ProcessChunk's loop body for the block at file position pos: at a chunk
     * boundary the finished chunk MAC is folded and a new one seeded; then the counter advances.
     */
    method Advance(pos: nat)
      requires Valid()
      modifies this
      ensures Valid() && Rest() == old(Rest())
      ensures currentCounter == old(currentCounter) + 1 && counter == CounterBytes(old(currentCounter))
      ensures fileMac == if IsChunkStart(cipher, pos) && pos != 0 then FoldMac(cipher, old(fileMac), old(currentChunkMac)) else old(fileMac)
      ensures currentChunkMac == if IsChunkStart(cipher, pos) then ChunkMacSeed(iv) else old(currentChunkMac)
    {
      if pos in chunksPositions || pos == 0 {
        StartChunk(pos);
      }
      IncrementCounter();
    }

    /**
     * The body of ProcessChunk's loop for the block at file position pos (at most 16 bytes):
     * exactly one BlockStep.
     */
    method ProcessBlock(mode: Mode, pos: nat, block: seq<byte>) returns (output: seq<byte>)
      requires Valid() && 0 < |block| <= 16
      modifies this
      ensures Valid() && Rest() == old(Rest())
      ensures output == BlockStep(cipher, mode, pos, old(Mac()), block).output
      ensures Mac() == BlockStep(cipher, mode, pos, old(Mac()), block).state
    {
      Advance(pos);
      var input := block + Zeros(16 - |block|);
      assert input[..|block|] == block;
      var ivCounter := iv + counter;
      var encryptedIvCounter := Crypto.EncryptAes(aes, ivCounter, fileKey);
      assert ivCounter == CounterBlock(iv, old(currentCounter));
      assert encryptedIvCounter == cipher.keystream(old(currentCounter));
      var mac;
      output, mac := XorBlock(mode, encryptedIvCounter, input, |block|, currentChunkMac);
      currentChunkMac := Crypto.EncryptAes(aes, mac, fileKey);
    }

    /**
     * ProcessChunk: transforms the next bytes of source (from sourceIndex, as many as it holds
     * but no further than the end of the stream; count is not consulted) into destination at
     * destinationIndex, 16 bytes at a time, advancing the MAC state. The position is not moved.
     */
    method ProcessChunk(mode: Mode, source: array<byte>, sourceIndex: int, destination: array<byte>, destinationIndex: int, count: int)
      requires Valid() && source != destination && position >= 0
      requires 0 <= sourceIndex <= source.Length
      requires var n := ChunkLength(source.Length - sourceIndex, streamLength, position);
               n > 0 ==> 0 <= destinationIndex && destinationIndex + n <= destination.Length
      modifies this, destination
      ensures Valid() && Rest() == old(Rest())
      ensures var n := ChunkLength(source.Length - sourceIndex, streamLength, old(position));
              if n <= 0 then Mac() == old(Mac()) && destination[..] == old(destination[..])
              else
                var r := Process(cipher, mode, old(position), old(Mac()), old(source[sourceIndex..sourceIndex + n]));
                Mac() == r.state
                && destination[..] == old(destination[..])[..destinationIndex] + r.output + old(destination[..])[destinationIndex + n..]
    {
      var chunkLength := ChunkLength(source.Length - sourceIndex, streamLength, position);
      if chunkLength > 0 {
        var src := source[sourceIndex..sourceIndex + chunkLength];
        ChunkLoop(mode, src, destination, destinationIndex);
      }
    }

    /**
     * The loop of ProcessChunk over the chunkLength bytes src it takes from the source: the file
     * position runs from the current position in steps of 16.
     */
    method ChunkLoop(mode: Mode, src: seq<byte>, destination: array<byte>, destinationIndex: int)
      requires Valid() && position >= 0 && |src| > 0
      requires 0 <= destinationIndex && destinationIndex + |src| <= destination.Length
      modifies this, destination
      ensures Valid() && Rest() == old(Rest())
      ensures Mac() == Process(cipher, mode, position, old(Mac()), src).state
      ensures destination[..] == old(destination[..])[..destinationIndex] + Process(cipher, mode, position, old(Mac()), src).output
                                 + old(destination[..])[destinationIndex + |src|..]
    {
      ghost var s0, d0, start := Mac(), destination[..], position;
      assert src[..0] == [];
      var pos := position;
      ghost var done := 0;
      while pos < position + |src|
        invariant Valid() && Rest() == old(Rest()) && position == start
        invariant done <= |src|
        invariant done < |src| ==> pos == start + done && done % 16 == 0
        invariant done == |src| ==> pos >= start + |src|
        invariant Mac() == Process(cipher, mode, start, s0, src[..done]).state
        invariant destination[..] == d0[..destinationIndex] + Process(cipher, mode, start, s0, src[..done]).output + d0[destinationIndex + done..]
        decreases |src| + start - pos
      {
        done := ChunkStep(mode, src, pos, destination, destinationIndex, start, done, s0, d0);
        pos := pos + 16;
      }
      assert src[..done] == src;
    }

    /**
     * One pass of ProcessChunk's loop, at file position pos: the next (at most 16) bytes of src
     * go through ProcessBlock into destination. The ghost parameters say what the earlier passes
     * did: starting at `start` from MAC state s0 over a destination that held d0, they have
     * transformed the first `done` bytes of src, a whole number of blocks.
     */
    method ChunkStep(mode: Mode, src: seq<byte>, pos: int, destination: array<byte>, destinationIndex: int,
                     ghost start: nat, ghost done: nat, ghost s0: MacState, ghost d0: seq<byte>)
      returns (ghost end: nat)
      requires Valid() && position == start && pos == start + done
      requires done % 16 == 0 && done < |src|
      requires 0 <= destinationIndex && destinationIndex + |src| <= destination.Length == |d0|
      requires Mac() == Process(cipher, mode, start, s0, src[..done]).state
      requires destination[..] == d0[..destinationIndex] + Process(cipher, mode, start, s0, src[..done]).output + d0[destinationIndex + done..]
      modifies this, destination
      ensures Valid() && Rest() == old(Rest())
      ensures end == if done + 16 <= |src| then done + 16 else |src|
      ensures end < |src| ==> end % 16 == 0
      ensures Mac() == Process(cipher, mode, start, s0, src[..end]).state
      ensures destination[..] == d0[..destinationIndex] + Process(cipher, mode, start, s0, src[..end]).output + d0[destinationIndex + end..]
    {
      var itPos := pos - position;
      ghost var written := Process(cipher, mode, start, s0, src[..done]).output;
      var output;
      output, end := TransformStep(mode, src, pos, start, done, s0);
      CopyBlock(output, destination, destinationIndex + itPos, d0, destinationIndex, written);
    }

    /**
     * The MAC side of one pass: ProcessBlock on the next (at most 16) bytes of src, which extends
     * the transformation of the first `done` bytes to the first `end`.
     */
    method TransformStep(mode: Mode, src: seq<byte>, pos: int, ghost start: nat, ghost done: nat, ghost s0: MacState)
      returns (output: seq<byte>, ghost end: nat)
      requires Valid() && position == start && pos == start + done
      requires done % 16 == 0 && done < |src|
      requires Mac() == Process(cipher, mode, start, s0, src[..done]).state
      modifies this
      ensures Valid() && Rest() == old(Rest())
      ensures end == if done + 16 <= |src| then done + 16 else |src|
      ensures Mac() == Process(cipher, mode, start, s0, src[..end]).state
      ensures Process(cipher, mode, start, s0, src[..end]).output == Process(cipher, mode, start, s0, src[..done]).output + output
    {
      var itPos := pos - position;
      var inputLength := if 16 <= |src| - itPos then 16 else |src| - itPos;
      var block := src[itPos..itPos + inputLength];
      ghost var st := Mac();
      output := ProcessBlock(mode, pos, block);
      end := done + inputLength;
      ProcessExtend(cipher, mode, start, s0, src, done, end, pos, st, block, output, Mac());
    }

    /**
     * Dispose: the first call marks the stream disposed and, when the position is at the end,
     * folds the last chunk MAC into the file MAC and condenses it into the meta-MAC; otherwise
     * the meta-MAC keeps its value. Later calls change nothing.
     */
    method Dispose()
      requires Valid()
      modifies this
      ensures Valid() && isDisposing && position == old(position)
      ensures currentCounter == old(currentCounter) && currentChunkMac == old(currentChunkMac)
      ensures if !old(isDisposing) && position == streamLength
              then fileMac == FoldMac(cipher, old(fileMac), old(currentChunkMac)) && metaMac == Finish(cipher, old(Mac()))
              else fileMac == old(fileMac) && metaMac == old(metaMac)
    {
      if !isDisposing {
        isDisposing := true;
        if position == streamLength {
          ComputeChunk();
          var m := Condense(fileMac);
          metaMac := m;
        }
      }
    }
  }

  /**
   * MegaEncryptStream: reads plaintext from the underlying stream and returns it encrypted.
   * The ghost `produced` is everything returned so far; `aligned` records that every read that
   * returned data began at a multiple of 16, the condition under which the reads together
   * encrypt the file exactly as one pass over it would.
   */
  class EncryptStream {
    const base: MegaStream
    ghost var produced: seq<byte>
    ghost var aligned: bool

    ghost predicate Valid()
      reads this, base, base.stream
    {
      base.Valid() && base.MetaMacPending() && base.stream.Valid() && base.streamLength == |base.stream.data|
      && base.position == base.stream.pos && Encrypted()
    }

    /** While aligned, the MAC state and the output are those of one pass over the bytes read so far. */
    ghost predicate Encrypted()
      reads this, base
    {
      0 <= base.position <= |base.stream.data|
      && (aligned ==>
            var w := WholeFile(base.cipher, Encrypt, base.stream.data[..base.position]);
            base.Mac() == w.state && produced == w.output)
    }

    /**
     * The file key and the key whose first 8 bytes become the nonce are the two random AES keys
     * the source creates; the stream length is the plaintext stream's length.
     */
    constructor (stream: Source, fileKey: Block, ivKey: Block, aes: BlockCipher.Aes)
      requires stream.Valid() && stream.pos == 0
      ensures Valid() && aligned && produced == [] && fresh(base)
      ensures base.stream == stream && base.streamLength == |stream.data|
      ensures base.fileKey == fileKey && base.iv == ivKey[..8] && base.aes == aes
      ensures base.cipher == MegaCipher(aes, fileKey, ivKey[..8], base.chunksPositions)
      ensures ChunkPlan.IsPlan(|stream.data|, base.chunksPositions)
      ensures base.position == 0 && base.Mac() == InitialState && !base.isDisposing
    {
      var iv := Extensions.CopySubArray(ivKey, 8, 0, 0 as byte);
      base := new MegaStream(stream, |stream.data|, fileKey, iv, aes);
      produced := [];
      aligned := true;
      assert stream.data[..0] == [];
    }

    /**
     * ReadAsync: reads up to count plaintext bytes, looping over short reads until count bytes
     * arrived or the stream ended, encrypts them into buffer at offset and moves the position on.
     */
    method ReadAsync(buffer: array<byte>, offset: int, count: int) returns (totalReadBytes: int)
      requires Valid()
      requires 0 <= offset && 0 <= count && offset + count <= buffer.Length
      modifies this, base, base.stream, buffer
      ensures Valid()
      ensures totalReadBytes == if count <= base.streamLength - old(base.position) then count else base.streamLength - old(base.position)
      ensures base.position == old(base.position) + totalReadBytes
      ensures var r := Process(base.cipher, Encrypt, old(base.position), old(base.Mac()), base.stream.data[old(base.position)..base.position]);
              base.Mac() == r.state && buffer[..] == old(buffer[..offset]) + r.output + old(buffer[offset + totalReadBytes..])
      ensures produced == old(produced) + buffer[offset..offset + totalReadBytes]
      ensures aligned == (old(aligned) && (totalReadBytes == 0 || old(base.position) % 16 == 0))
      ensures base.isDisposing == old(base.isDisposing) && base.metaMac == old(base.metaMac)
    {
      var input := new byte[count];
      totalReadBytes := ReadInput(input);
      EncryptInput(input, totalReadBytes, buffer, offset);
    }

    /**
     * The rest of ReadAsync once the read loop is done: ProcessChunk over the input array into
     * buffer, then the position moves on by the number of bytes read.
     */
    method EncryptInput(input: array<byte>, totalReadBytes: int, buffer: array<byte>, offset: int)
      requires base.Valid() && base.MetaMacPending() && base.stream.Valid() && base.streamLength == |base.stream.data| && Encrypted()
      requires base.stream.pos == base.position + totalReadBytes && input != buffer
      requires totalReadBytes == ChunkLength(input.Length, base.streamLength, base.position)
      requires 0 <= offset && 0 <= totalReadBytes && offset + totalReadBytes <= buffer.Length
      requires input[..totalReadBytes] == base.stream.data[base.position..base.position + totalReadBytes]
      modifies this, base, buffer
      ensures Valid()
      ensures base.position == old(base.position) + totalReadBytes
      ensures var r := Process(base.cipher, Encrypt, old(base.position), old(base.Mac()), base.stream.data[old(base.position)..base.position]);
              base.Mac() == r.state && buffer[..] == old(buffer[..offset]) + r.output + old(buffer[offset + totalReadBytes..])
      ensures produced == old(produced) + buffer[offset..offset + totalReadBytes]
      ensures aligned == (old(aligned) && (totalReadBytes == 0 || old(base.position) % 16 == 0))
      ensures base.isDisposing == old(base.isDisposing) && base.metaMac == old(base.metaMac)
    {
      ghost var c, p0, s0, b0 := base.cipher, base.position, base.Mac(), buffer[..];
      ghost var chunk := base.stream.data[p0..p0 + totalReadBytes];
      assert input[0..totalReadBytes] == chunk;
      base.ProcessChunk(Encrypt, input, 0, buffer, offset, totalReadBytes);
      ghost var r := Process(c, Encrypt, p0, s0, chunk);
      if totalReadBytes > 0 {
        assert base.Mac() == r.state;
        assert buffer[..] == b0[..offset] + r.output + b0[offset + totalReadBytes..];
      } else {
        assert chunk == [];
        assert r == Transformed([], s0);
      }
      base.SetPosition(base.position + totalReadBytes);
      Record(p0, s0, buffer[offset..offset + totalReadBytes]);
    }

    /**
     * The ghost bookkeeping of one read that started at p0 from MAC state s0 and returned out:
     * the output is appended to what was produced, and alignment is kept when the read started
     * on a block boundary.
     */
    ghost method Record(p0: nat, s0: MacState, out: seq<byte>)
      requires base.position == p0 + |out| <= |base.stream.data|
      requires aligned ==> var w := WholeFile(base.cipher, Encrypt, base.stream.data[..p0]);
                           s0 == w.state && produced == w.output
      requires var r := Process(base.cipher, Encrypt, p0, s0, base.stream.data[p0..base.position]);
               base.Mac() == r.state && out == r.output
      modifies this
      ensures Encrypted()
      ensures produced == old(produced) + out
      ensures aligned == (old(aligned) && (|out| == 0 || p0 % 16 == 0))
    {
      produced := produced + out;
      if |out| > 0 {
        if aligned && p0 % 16 == 0 {
          WholeFileExtend(base.cipher, Encrypt, base.stream.data, p0, |out|, s0, out, base.Mac());
        } else {
          aligned := false;
        }
      } else {
        assert base.stream.data[..p0] == base.stream.data[..base.position];
      }
    }

    /**
     * The read loop of ReadAsync: reads into input until it is full or the underlying stream
     * has no more data.
     */
    method ReadInput(input: array<byte>) returns (totalReadBytes: int)
      requires base.stream.Valid()
      modifies base.stream, input
      ensures base.stream.Valid()
      ensures totalReadBytes == if input.Length <= |base.stream.data| - old(base.stream.pos) then input.Length else |base.stream.data| - old(base.stream.pos)
      ensures base.stream.pos == old(base.stream.pos) + totalReadBytes
      ensures input[..totalReadBytes] == base.stream.data[old(base.stream.pos)..base.stream.pos]
    {
      ghost var p0 := base.stream.pos;
      var count := input.Length;
      totalReadBytes := 0;
      var stepReadBytes, stepOffset, stepCount := 1, 0, count;
      while stepReadBytes > 0 && totalReadBytes < count
        invariant base.stream.Valid() && 0 <= totalReadBytes <= count
        invariant stepOffset == totalReadBytes && stepCount == count - totalReadBytes
        invariant base.stream.pos == p0 + totalReadBytes
        invariant input[..totalReadBytes] == base.stream.data[p0..p0 + totalReadBytes]
        invariant stepReadBytes >= 0 && (stepReadBytes == 0 ==> base.stream.pos == |base.stream.data|)
        decreases count - totalReadBytes, stepReadBytes
      {
        stepReadBytes := base.Read(input, stepOffset, stepCount);
        totalReadBytes := totalReadBytes + stepReadBytes;
        stepOffset := stepOffset + stepReadBytes;
        stepCount := stepCount - stepReadBytes;
      }
    }

    /**
     * Dispose: the base stream's Dispose. When every read was aligned and the whole file went
     * through, the meta-MAC is the one of the plaintext file; a first dispose before the end
     * leaves it all zero, and a later dispose leaves it as it was.
     */
    method Dispose()
      requires Valid()
      modifies base
      ensures base.Valid() && base.isDisposing && base.position == old(base.position)
      ensures !old(base.isDisposing) && aligned && old(base.position) == base.streamLength ==>
                base.metaMac == MetaMac(base.cipher, base.stream.data)
      ensures !old(base.isDisposing) && old(base.position) != base.streamLength ==> base.metaMac == Zeros(8)
      ensures old(base.isDisposing) ==> base.metaMac == old(base.metaMac)
      ensures !old(base.isDisposing) && old(base.position) == base.streamLength ==>
                base.metaMac == Finish(base.cipher, old(base.Mac()))
    {
      base.Dispose();
      assert base.stream.data[..|base.stream.data|] == base.stream.data;
    }
  }

  /** The size of MegaDecryptStream's input and last-chunk buffers. */
  const ChunkSize := 65536

  /**
   * MegaDecryptStream: reads the encrypted file ChunkSize bytes at a time into `input`, decrypts
   * them into `lastChunk` and serves reads from there. nextChunkPosition is where the next chunk
   * starts; the ghost chunkStart is where the chunk held in lastChunk starts.
   */
  class DecryptStream {
    const base: MegaStream
    const expectedMetaMac: seq<byte>
    const input: array<byte>
    const lastChunk: array<byte>
    var nextChunkPosition: int
    ghost var chunkStart: int

    /** The encrypted file (the first streamLength bytes of the underlying stream), its one-pass
        decryption, and the MAC state a pass over its first k bytes ends in. */
    ghost const file: seq<byte>
    ghost const plain: seq<byte>
    ghost const macAt: nat -> MacState

    ghost predicate Model()
    {
      0 <= base.streamLength <= |base.stream.data| && file == base.stream.data[..base.streamLength]
      && forall k: nat {:trigger WholeFile(base.cipher, Decrypt, file[..k])} ::
           k <= |file| ==>
             macAt(k) == WholeFile(base.cipher, Decrypt, file[..k]).state
             && (k == |file| ==> plain == WholeFile(base.cipher, Decrypt, file[..k]).output)
    }

    /**
     * lastChunk holds the decryption of the chunk from chunkStart to nextChunkPosition, the
     * underlying stream has been read up to nextChunkPosition, and the MAC state is the one of a
     * pass over the file up to there.
     */
    ghost predicate Valid()
      reads this, base, base.stream, lastChunk
    {
      base.Valid() && base.MetaMacPending() && base.stream.Valid() && Model()
      && input.Length == ChunkSize && lastChunk.Length == ChunkSize && input != lastChunk
      && 0 <= chunkStart <= base.position <= nextChunkPosition <= base.streamLength
      && nextChunkPosition <= chunkStart + ChunkSize && chunkStart % ChunkSize == 0
      && (nextChunkPosition % ChunkSize == 0 || nextChunkPosition == base.streamLength)
      && base.stream.pos == nextChunkPosition
      && |plain| == |file| == base.streamLength
      && lastChunk[..nextChunkPosition - chunkStart] == plain[chunkStart..nextChunkPosition]
      && base.Mac() == macAt(nextChunkPosition)
    }

    constructor (stream: Source, streamLength: int, fileKey: Block, iv: Nonce, expectedMetaMac: seq<byte>, aes: BlockCipher.Aes)
      requires stream.Valid() && stream.pos == 0 && 0 <= streamLength <= |stream.data|
      ensures Valid() && this.expectedMetaMac == expectedMetaMac
      ensures fresh(base) && fresh(input) && fresh(lastChunk)
      ensures base.stream == stream && base.streamLength == streamLength
      ensures base.fileKey == fileKey && base.iv == iv && base.aes == aes
      ensures base.cipher == MegaCipher(aes, fileKey, iv, base.chunksPositions)
      ensures ChunkPlan.IsPlan(streamLength, base.chunksPositions)
      ensures file == stream.data[..streamLength] && plain == WholeFile(base.cipher, Decrypt, file).output
      ensures base.position == 0 && nextChunkPosition == 0 && !base.isDisposing
    {
      var mega := new MegaStream(stream, streamLength, fileKey, iv, aes);
      base := mega;
      this.expectedMetaMac := expectedMetaMac;
      input := new byte[ChunkSize];
      lastChunk := new byte[ChunkSize];
      nextChunkPosition := 0;
      chunkStart := 0;
      var f := stream.data[..streamLength];
      file := f;
      plain := WholeFile(mega.cipher, Decrypt, f).output;
      macAt := (k: nat) => if k <= |f| then WholeFile(mega.cipher, Decrypt, f[..k]).state else InitialState;
      new;
      assert file[..0] == [];
      forall k: nat | k <= |file|
        ensures macAt(k) == WholeFile(base.cipher, Decrypt, file[..k]).state
        ensures k == |file| ==> plain == WholeFile(base.cipher, Decrypt, file[..k]).output
      {
        if k == |file| {
          assert file[..k] == file;
        }
      }
    }

    /**
     * ReadAsync: until count bytes are delivered or the position reaches the length, serves what
     * lastChunk still holds past the position, then decrypts the next chunk and serves from its
     * start. The bytes delivered are the decrypted file's, from the old position on.
     */
    method ReadAsync(buffer: array<byte>, offset: int32, count: int32) returns (totalReadBytes: int)
      requires Valid() && buffer != input && buffer != lastChunk
      requires 0 <= offset && 0 <= count && offset as int + count as int <= buffer.Length
      modifies this, base, base.stream, input, lastChunk, buffer
      ensures Valid()
      ensures totalReadBytes == if count as int <= base.streamLength - old(base.position) then count as int else base.streamLength - old(base.position)
      ensures base.position == old(base.position) + totalReadBytes
      ensures buffer[..] == old(buffer[..offset]) + plain[old(base.position)..base.position] + old(buffer[offset as int + totalReadBytes..])
      ensures base.isDisposing == old(base.isDisposing) && base.metaMac == old(base.metaMac)
    {
      ghost var p0, d0 := base.position, buffer[..];
      totalReadBytes := 0;
      var at, left := offset as int, count as int;
      while left > 0 && base.position < base.streamLength
        invariant Valid()
        invariant 0 <= left && left == count as int - totalReadBytes && at == offset as int + totalReadBytes
        invariant base.position == p0 + totalReadBytes
        invariant buffer[..] == d0[..offset] + plain[p0..base.position] + d0[at..]
        invariant base.isDisposing == old(base.isDisposing) && base.metaMac == old(base.metaMac)
        decreases left
      {
        var n := ReadPass(buffer, at, left, d0, offset as int, p0);
        left, at, totalReadBytes := left - n, at + n, totalReadBytes + n;
      }
    }

    /**
     * One pass of ReadAsync's loop: the copy from lastChunk when the position is inside it, then,
     * while bytes are still wanted, the next chunk. The ghost parameters say that the earlier
     * passes wrote the decrypted bytes from p0 on into buffer from `from` on.
     */
    method ReadPass(buffer: array<byte>, at: int, left: int, ghost d0: seq<byte>, ghost from: int, ghost p0: int)
      returns (n: int)
      requires Valid() && base.position < base.streamLength && buffer != input && buffer != lastChunk
      requires 0 < left <= Int32MaxValue as int && 0 <= from <= at && at + left <= buffer.Length == |d0|
      requires 0 <= p0 <= base.position && at - from == base.position - p0
      requires buffer[..] == d0[..from] + plain[p0..base.position] + d0[at..]
      modifies this, base, base.stream, input, lastChunk, buffer
      ensures Valid()
      ensures 0 < n <= left && base.position == old(base.position) + n
      ensures buffer[..] == d0[..from] + plain[p0..base.position] + d0[at + n..]
      ensures base.isDisposing == old(base.isDisposing) && base.metaMac == old(base.metaMac)
    {
      n := 0;
      if base.position < nextChunkPosition {
        n := CopyFromLastChunk(buffer, at, left, d0, from, p0);
      }
      if n < left {
        var m := ReadNextChunk(buffer, at + n, left - n, d0, from, p0);
        n := n + m;
      }
    }

    /**
     * The first branch of ReadAsync's loop: copies from lastChunk, at the position's offset in
     * its chunk, as much as the chunk, the request and the stream allow. The ghost parameters say
     * that the earlier passes wrote the decrypted bytes from p0 on into buffer from `from` on.
     */
    method CopyFromLastChunk(buffer: array<byte>, at: int, left: int, ghost d0: seq<byte>, ghost from: int, ghost p0: int)
      returns (n: int)
      requires Valid() && base.position < nextChunkPosition && buffer != lastChunk
      requires 0 < left <= Int32MaxValue as int && 0 <= from <= at && at + left <= buffer.Length == |d0|
      requires 0 <= p0 <= base.position && at - from == base.position - p0
      requires buffer[..] == d0[..from] + plain[p0..base.position] + d0[at..]
      modifies base`position, buffer
      ensures Valid()
      ensures 0 < n <= left && base.position == old(base.position) + n
      ensures n < left ==> base.position == nextChunkPosition
      ensures buffer[..] == d0[..from] + plain[p0..base.position] + d0[at + n..]
    {
      var chunkOffset := base.position % ChunkSize;
      OffsetInChunk(chunkStart, base.position);
      var bounds := [(ChunkSize - chunkOffset) as int32, left as int32, Saturate32(base.streamLength - base.position)];
      var smallest := MathEx.Min(bounds);
      var bytesFromLastChunk := smallest.value as int;
      assert bytesFromLastChunk <= bounds[0] as int && bytesFromLastChunk <= bounds[1] as int && bytesFromLastChunk <= bounds[2] as int;
      assert bytesFromLastChunk == bounds[0] as int || bytesFromLastChunk == bounds[1] as int || bytesFromLastChunk == bounds[2] as int;
      if nextChunkPosition != base.streamLength {
        NextMultiple(chunkStart, nextChunkPosition);
      }
      assert 0 < bytesFromLastChunk && chunkOffset + bytesFromLastChunk <= nextChunkPosition - chunkStart;
      Deliver(buffer, at, chunkOffset, bytesFromLastChunk, d0, from, p0);
      n := bytesFromLastChunk;
    }

    /**
     * The second branch of ReadAsync's loop, at the start of the next chunk: reads and decrypts it
     * into lastChunk, then copies as much of it as the request allows.
     */
    method ReadNextChunk(buffer: array<byte>, at: int, left: int, ghost d0: seq<byte>, ghost from: int, ghost p0: int)
      returns (n: int)
      requires Valid() && base.position == nextChunkPosition && buffer != lastChunk && buffer != input
      requires 0 < left && 0 <= from <= at && at + left <= buffer.Length == |d0|
      requires 0 <= p0 <= base.position && at - from == base.position - p0
      requires buffer[..] == d0[..from] + plain[p0..base.position] + d0[at..]
      modifies this, base, base.stream, input, lastChunk, buffer
      ensures Valid()
      ensures 0 <= n <= left && base.position == old(base.position) + n
      ensures old(base.position) < base.streamLength ==> n > 0
      ensures buffer[..] == d0[..from] + plain[p0..base.position] + d0[at + n..]
      ensures base.isDisposing == old(base.isDisposing) && base.metaMac == old(base.metaMac)
    {
      var readBytes := FillLastChunk();
      var bytesToWrite := if left <= readBytes then left else readBytes;
      Deliver(buffer, at, 0, bytesToWrite, d0, from, p0);
      n := bytesToWrite;
    }

    /**
     * The Array.Copy of both branches: k bytes of lastChunk from offset off go into buffer at `at`,
     * and the position moves past them; they are the decrypted file's bytes at the position.
     */
    method Deliver(buffer: array<byte>, at: int, off: int, k: int, ghost d0: seq<byte>, ghost from: int, ghost p0: int)
      requires Valid() && buffer != lastChunk
      requires 0 <= off && 0 <= k && base.position + k <= nextChunkPosition && off + k <= ChunkSize
      requires k > 0 ==> off == base.position - chunkStart
      requires 0 <= from <= at && at + k <= buffer.Length == |d0|
      requires 0 <= p0 <= base.position && at - from == base.position - p0
      requires buffer[..] == d0[..from] + plain[p0..base.position] + d0[at..]
      modifies base`position, buffer
      ensures Valid() && base.position == old(base.position) + k
      ensures buffer[..] == d0[..from] + plain[p0..base.position] + d0[at + k..]
    {
      ghost var pos := base.position;
      if k > 0 {
        ChunkSlice(lastChunk[..], plain, chunkStart, nextChunkPosition, off, k);
      }
      CopyStretch(lastChunk[off..off + k], buffer, at, d0, from, plain, p0, pos);
      MoveTo(base.position + k);
    }

    /** The position moves forward within what lastChunk holds; nothing else changes. */
    method MoveTo(p: int)
      requires Valid() && base.position <= p <= nextChunkPosition
      modifies base`position
      ensures Valid() && base.position == p
    {
      base.SetPosition(p);
    }

    /**
     * Reading and decrypting the next chunk: as many bytes as remain, at most ChunkSize, go
     * through ProcessChunk into lastChunk, and nextChunkPosition moves past them.
     */
    method FillLastChunk() returns (readBytes: int)
      requires Valid() && base.position == nextChunkPosition
      modifies this, base, base.stream, input, lastChunk
      ensures Valid() && base.position == old(base.position)
      ensures readBytes == if ChunkSize <= base.streamLength - base.position then ChunkSize else base.streamLength - base.position
      ensures nextChunkPosition == base.position + readBytes
      ensures readBytes > 0 ==> chunkStart == base.position
      ensures base.isDisposing == old(base.isDisposing) && base.metaMac == old(base.metaMac)
    {
      var remaining := Saturate32(base.streamLength - base.position) as int;
      var bytesToRead := if ChunkSize <= remaining then ChunkSize else remaining;
      readBytes := ReadEncrypted(bytesToRead);
      DecryptInput(readBytes);
      nextChunkPosition := nextChunkPosition + readBytes;
      if readBytes > 0 {
        chunkStart := base.position;
      }
    }

    /** ProcessChunk(Decrypt, input, 0, lastChunk, 0, readBytes) on the chunk that starts at the position. */
    method DecryptInput(readBytes: int)
      requires base.Valid() && Model() && input != lastChunk && input.Length == ChunkSize == lastChunk.Length
      requires 0 <= base.position <= base.streamLength && |plain| == |file| == base.streamLength
      requires readBytes == if ChunkSize <= base.streamLength - base.position then ChunkSize else base.streamLength - base.position
      requires readBytes > 0 ==> base.position % ChunkSize == 0
      requires input[0..readBytes] == file[base.position..base.position + readBytes]
      requires base.Mac() == macAt(base.position)
      modifies base, lastChunk
      ensures base.Valid() && base.Rest() == old(base.Rest()) && base.Mac() == macAt(base.position + readBytes)
      ensures readBytes > 0 ==> lastChunk[..readBytes] == plain[base.position..base.position + readBytes]
      ensures readBytes > 0 ==> (base.position + readBytes) % ChunkSize == 0 || base.position + readBytes == base.streamLength
      ensures readBytes == 0 ==> lastChunk[..] == old(lastChunk[..])
    {
      ghost var pos, st, c0 := base.position, base.Mac(), lastChunk[..];
      DecryptChunk(readBytes, file[pos..pos + readBytes]);
      if readBytes > 0 {
        ChunkFilled(base.cipher, file, plain, macAt, pos, readBytes, st, c0, lastChunk[..], base.Mac());
      }
    }

    /** The ProcessChunk call itself: readBytes bytes of input decrypted into the front of lastChunk. */
    method DecryptChunk(readBytes: int, ghost bytes: seq<byte>)
      requires base.Valid() && input != lastChunk && input.Length == ChunkSize == lastChunk.Length
      requires 0 <= base.position && readBytes == ChunkLength(ChunkSize, base.streamLength, base.position)
      requires readBytes > 0 ==> input[0..readBytes] == bytes
      modifies base, lastChunk
      ensures base.Valid() && base.Rest() == old(base.Rest())
      ensures readBytes > 0 ==>
                var r := Process(base.cipher, Decrypt, base.position, old(base.Mac()), bytes);
                base.Mac() == r.state && lastChunk[..] == old(lastChunk[..])[..0] + r.output + old(lastChunk[..])[readBytes..]
      ensures readBytes <= 0 ==> base.Mac() == old(base.Mac()) && lastChunk[..] == old(lastChunk[..])
    {
      base.ProcessChunk(Decrypt, input, 0, lastChunk, 0, readBytes);
    }

    /**
     * The base stream's ReadAsync into input, repeated until all bytesToRead bytes of the file at
     * the position have arrived (a single read may return fewer).
     */
    method ReadEncrypted(bytesToRead: int) returns (readBytes: int)
      requires base.stream.Valid() && base.stream.pos == base.position
      requires 0 <= base.streamLength <= |base.stream.data| && file == base.stream.data[..base.streamLength]
      requires input.Length == ChunkSize && 0 <= base.position
      requires 0 <= bytesToRead <= ChunkSize && bytesToRead <= base.streamLength - base.position
      modifies base.stream, input
      ensures base.stream.Valid() && base.stream.pos == old(base.stream.pos) + readBytes
      ensures readBytes == bytesToRead && input[0..readBytes] == file[base.position..base.position + readBytes]
    {
      readBytes := 0;
      while readBytes < bytesToRead
        invariant base.stream.Valid() && 0 <= readBytes <= bytesToRead
        invariant base.stream.pos == base.position + readBytes
        invariant input[0..readBytes] == file[base.position..base.position + readBytes]
        decreases bytesToRead - readBytes
      {
        ghost var before := input[..];
        var n := base.Read(input, readBytes, bytesToRead - readBytes);
        assert input[0..readBytes] == before[0..readBytes];
        assert input[readBytes..readBytes + n] == file[base.position + readBytes..base.position + readBytes + n];
        readBytes := readBytes + n;
      }
    }

    /**
     * Dispose: the base stream's Dispose, then a comparison of the meta-MAC with the expected one;
     * a mismatch is the source's "File could not be decrypted" exception.
     */
    method Dispose() returns (r: Result<(), string>)
      requires Valid()
      modifies base
      ensures base.Valid() && base.isDisposing && base.position == old(base.position)
      ensures r.Failure? <==> expectedMetaMac != base.metaMac
      ensures !old(base.isDisposing) && old(base.position) == base.streamLength ==>
                base.metaMac == Finish(base.cipher, WholeFile(base.cipher, Decrypt, file).state)
      ensures !old(base.isDisposing) && old(base.position) != base.streamLength ==>
                base.metaMac == Zeros(8) && (r.Failure? <==> expectedMetaMac != Zeros(8))
      ensures old(base.isDisposing) ==> base.metaMac == old(base.metaMac)
    {
      base.Dispose();
      assert file[..|file|] == file;
      assert macAt(|file|) == WholeFile(base.cipher, Decrypt, file[..|file|]).state;
      if expectedMetaMac != base.metaMac {
        r := Failure("File could not be decrypted");
      } else {
        r := Success(());
      }
    }
  }

  /**
   * ProcessChunk's decryption of the m bytes at P, a multiple of ChunkSize, into the start of
   * lastChunk (contents c0 before, d after), in the terms of DecryptStream's model: lastChunk
   * starts with plain's stretch at P, and the MAC state is the one of a pass up to P + m.
   */
  lemma ChunkFilled(c: Cipher, file: seq<byte>, plain: seq<byte>, macAt: nat -> MacState, P: nat, m: nat,
                    st: MacState, c0: seq<byte>, d: seq<byte>, next: MacState)
    requires forall k: nat {:trigger WholeFile(c, Decrypt, file[..k])} :: k <= |file| ==>
               macAt(k) == WholeFile(c, Decrypt, file[..k]).state
               && (k == |file| ==> plain == WholeFile(c, Decrypt, file[..k]).output)
    requires P % ChunkSize == 0 && 0 < m && P + m <= |file| && (m == ChunkSize || P + m == |file|)
    requires st == macAt(P) && m <= |c0|
    requires d == c0[..0] + Process(c, Decrypt, P, st, file[P..P + m]).output + c0[m..]
    requires next == Process(c, Decrypt, P, st, file[P..P + m]).state
    ensures next == macAt(P + m) && P + m <= |plain| && d[..m] == plain[P..P + m]
    ensures (P + m) % ChunkSize == 0 || P + m == |file|
  {
    var r := Process(c, Decrypt, P, st, file[P..P + m]);
    assert macAt(P) == WholeFile(c, Decrypt, file[..P]).state;
    DecryptExtend(c, file, P, m, st, r.output, r.state);
    assert file[..|file|] == file;
    assert plain == WholeFile(c, Decrypt, file[..|file|]).output;
    SpliceFront(d, c0, r.output);
  }

  /** When buf starts with y[lo..hi], a stretch of buf inside it is the same stretch of y shifted by lo. */
  lemma ChunkSlice(buf: seq<byte>, y: seq<byte>, lo: int, hi: int, off: int, n: int)
    requires 0 <= lo <= hi <= |y| && hi - lo <= |buf| && buf[..hi - lo] == y[lo..hi]
    requires 0 <= off && 0 <= n && off + n <= hi - lo
    ensures buf[off..off + n] == y[lo + off..lo + off + n]
  {
    forall i | off <= i < off + n
      ensures buf[i] == y[lo + i]
    {
      assert buf[i] == buf[..hi - lo][i] == y[lo..hi][i];
    }
  }

  /** What an Array.Copy to the start of an array leaves there. */
  lemma SpliceFront(d: seq<byte>, c0: seq<byte>, out: seq<byte>)
    requires |out| <= |c0| && d == c0[..0] + out + c0[|out|..]
    ensures d[..|out|] == out
  {
  }

  /** Two adjacent stretches of a sequence make the stretch that spans both. */
  lemma SliceJoin(y: seq<byte>, a: int, b: int, c: int)
    requires 0 <= a <= b <= c <= |y|
    ensures y[a..b] + y[b..c] == y[a..c]
  {
  }

  /** A position in a chunk that starts on a multiple of ChunkSize is its offset modulo ChunkSize. */
  lemma OffsetInChunk(start: int, p: int)
    requires 0 <= start && start % ChunkSize == 0 && start <= p < start + ChunkSize
    ensures p % ChunkSize == p - start
  {
    DivMod(start, ChunkSize);
    DivUnique(p, ChunkSize, start / ChunkSize, p - start);
  }

  /** The next multiple of ChunkSize after a multiple, no further than ChunkSize on, is exactly ChunkSize on. */
  lemma NextMultiple(a: int, b: int)
    requires 0 <= a < b <= a + ChunkSize && a % ChunkSize == 0 && b % ChunkSize == 0
    ensures b == a + ChunkSize
  {
    DivMod(a, ChunkSize);
    DivMod(b, ChunkSize);
  }

  /** Multiples of ChunkSize are block boundaries, and so are they plus ChunkSize. */
  lemma ChunkMultiple(x: int)
    requires 0 <= x && x % ChunkSize == 0
    ensures x % 16 == 0 && (x + ChunkSize) % ChunkSize == 0
  {
    DivMod(x, ChunkSize);
    var q := x / ChunkSize;
    assert x == 16 * (4096 * q);
    DivUnique(x, 16, 4096 * q, 0);
    DivUnique(x + ChunkSize, ChunkSize, q + 1, 0);
  }

  // ---------------------------------------------------------------------------------------
  // MegaDecryptStream as written: one underlying read per chunk

  /**
   * The file position whose decrypted byte ReadAsync's first branch serves for position q when
   * lastChunk holds the decryption of the chunk that starts at chunkStart: it reads lastChunk at
   * q % CHUNKSIZE.
   */
  function ServedPosition(chunkStart: int, q: int): (r: int)
    ensures chunkStart <= r < chunkStart + ChunkSize
  {
    chunkStart + q % ChunkSize
  }

  /** The byte at lastChunk[q % CHUNKSIZE] is the decrypted byte at ServedPosition. */
  lemma ServedByte(buf: seq<byte>, y: seq<byte>, chunkStart: int, m: int, q: int)
    requires 0 <= chunkStart && 0 <= m && chunkStart + m <= |y| && m <= |buf| && buf[..m] == y[chunkStart..chunkStart + m]
    requires q % ChunkSize < m
    ensures buf[q % ChunkSize] == y[ServedPosition(chunkStart, q)]
  {
    assert buf[..m][q % ChunkSize] == y[chunkStart..chunkStart + m][q % ChunkSize];
  }

  /** With every chunk starting on a multiple of CHUNKSIZE, the byte served is the byte asked for. */
  lemma ServedInPlace(chunkStart: int, q: int)
    requires 0 <= chunkStart && chunkStart % ChunkSize == 0 && chunkStart <= q < chunkStart + ChunkSize
    ensures ServedPosition(chunkStart, q) == q
  {
    OffsetInChunk(chunkStart, q);
  }

  /**
   * A short read of r bytes (0 < r < CHUNKSIZE) at the chunk boundary P makes the next chunk
   * start at P + r. For every later position q inside that chunk the first branch serves the
   * byte of another position.
   */
  lemma ShortReadMisplaces(P: int, r: int, q: int)
    requires 0 <= P && P % ChunkSize == 0 && 0 < r < ChunkSize && P + r < q < P + r + ChunkSize
    ensures ServedPosition(P + r, q) != q
  {
    var k := P / ChunkSize;
    assert P == ChunkSize * k;
    if q < P + ChunkSize {
      DivUnique(q, ChunkSize, k, q - P);
      assert q % ChunkSize == q - P;
    } else {
      DivUnique(q, ChunkSize, k + 1, q - P - ChunkSize);
      assert q % ChunkSize == q - P - ChunkSize;
    }
  }

  /**
   * As written, a short read of r bytes at the chunk boundary P leaves the rest of input stale,
   * yet ProcessChunk decrypts min(CHUNKSIZE, Length - P) bytes of it. The counter then runs ahead
   * of the one a pass over the file has at P + r, where the next chunk is decrypted, so that
   * chunk is xor-ed with the wrong key stream.
   */
  lemma ShortReadCounter(c: Cipher, file: seq<byte>, P: nat, r: nat, stale: seq<byte>)
    requires P % 16 == 0 && r % 16 == 0 && 0 < r < ChunkLength(ChunkSize, |file|, P) && |stale| == ChunkSize
    ensures P + r <= |file|
    ensures var input := file[P..P + r] + stale[r..];
            var n := ChunkLength(ChunkSize, |file|, P);
            Process(c, Decrypt, P, WholeFile(c, Decrypt, file[..P]).state, input[..n]).state.counter
              > WholeFile(c, Decrypt, file[..P + r]).state.counter
  {
    var input := file[P..P + r] + stale[r..];
    var n := ChunkLength(ChunkSize, |file|, P);
    var st := WholeFile(c, Decrypt, file[..P]).state;
    ProcessCounter(c, Decrypt, 0, InitialState, file[..P]);
    ProcessCounter(c, Decrypt, 0, InitialState, file[..P + r]);
    ProcessCounter(c, Decrypt, P, st, input[..n]);
    assert BlockCount(P + r) == BlockCount(P) + r / 16;
    assert BlockCount(n) >= r / 16 + 1;
  }

  /**
   * A 32-byte file whose underlying stream returns 16 bytes to the first read: the first chunk
   * is decrypted over 32 bytes (counter 2 where a pass over the first 16 bytes has 1), and a later
   * read at position 17 is served lastChunk[17], the slot of position 33.
   */
  lemma ShortReadExample(c: Cipher, file: seq<byte>, stale: seq<byte>)
    requires |file| == 32 && |stale| == ChunkSize
    ensures var input := file[0..16] + stale[16..];
            Process(c, Decrypt, 0, InitialState, input[..32]).state.counter == 2
            && WholeFile(c, Decrypt, file[..16]).state.counter == 1
    ensures ServedPosition(16, 17) == 33
  {
    var input := file[0..16] + stale[16..];
    ProcessCounter(c, Decrypt, 0, InitialState, input[..32]);
    ProcessCounter(c, Decrypt, 0, InitialState, file[..16]);
  }

  /**
   * Decrypting the chunk of m bytes at P, a multiple of ChunkSize, from the MAC state of a pass up
   * to P, extends that pass to P + m; its output is that stretch of the whole file's decryption
   * when the chunk is full or ends the file.
   */
  lemma DecryptExtend(c: Cipher, file: seq<byte>, P: nat, m: nat, st: MacState, out: seq<byte>, next: MacState)
    requires P % ChunkSize == 0 && P + m <= |file| && (m == ChunkSize || P + m == |file|)
    requires st == WholeFile(c, Decrypt, file[..P]).state
    requires out == Process(c, Decrypt, P, st, file[P..P + m]).output && next == Process(c, Decrypt, P, st, file[P..P + m]).state
    ensures next == WholeFile(c, Decrypt, file[..P + m]).state
    ensures out == WholeFile(c, Decrypt, file).output[P..P + m]
    ensures (P + m) % ChunkSize == 0 || P + m == |file|
  {
    ChunkMultiple(P);
    WholeFileExtend(c, Decrypt, file, P, m, st, out, next);
    if P + m < |file| {
      ChunkMultiple(P + m);
    }
    WholeFilePrefix(c, Decrypt, file, P + m);
    var whole := WholeFile(c, Decrypt, file[..P + m]).output;
    assert whole == WholeFile(c, Decrypt, file[..P]).output + out;
    assert whole[P..P + m] == out;
  }

  /** The loop of ComputeChunk: fileMac[i] ^= chunkMac[i] for every i. */
  method XorInto(fileMac: Block, chunkMac: Block) returns (mixed: Block)
    ensures mixed == Xor(fileMac, chunkMac)
  {
    mixed := fileMac;
    for i := 0 to 16
      invariant forall j | 0 <= j < i :: mixed[j] == XorByte(fileMac[j], chunkMac[j])
      invariant forall j | i <= j < 16 :: mixed[j] == fileMac[j]
    {
      mixed := mixed[i := XorByte(mixed[i], chunkMac[i])];
    }
  }

  /**
   * The inner loop of ProcessChunk over the first inputLength bytes of a block: output byte
   * = key-stream byte xor input byte, and the plaintext byte (the input when encrypting, the
   * output when decrypting) xor-ed into the chunk MAC.
   */
  method XorBlock(mode: Mode, keystream: Block, input: Block, inputLength: nat, chunkMac: Block)
    returns (output: seq<byte>, mac: Block)
    requires inputLength <= 16
    ensures output == Xor(keystream[..inputLength], input[..inputLength])
    ensures mac == Absorb(chunkMac, if mode == Encrypt then input[..inputLength] else output)
  {
    var out := Zeros(16);
    mac := chunkMac;
    for k := 0 to inputLength
      invariant |out| == 16
      invariant forall j | 0 <= j < k :: out[j] == XorByte(keystream[j], input[j])
      invariant forall j | 0 <= j < k :: mac[j] == XorByte(chunkMac[j], if mode == Encrypt then input[j] else out[j])
      invariant forall j | k <= j < 16 :: mac[j] == chunkMac[j]
    {
      out := out[k := XorByte(keystream[k], input[k])];
      mac := mac[k := XorByte(mac[k], if mode == Encrypt then input[k] else out[k])];
    }
    output := out[..inputLength];
    ghost var plain := if mode == Encrypt then input[..inputLength] else output;
    AbsorbBytes(chunkMac, plain);
    assert forall j | 0 <= j < 16 :: mac[j] == Absorb(chunkMac, plain)[j];
  }

  /** The meta-MAC loop of Dispose: four rounds, each filling byte i and byte i + 4. */
  method Condense(fileMac: Block) returns (m: seq<byte>)
    ensures m == CondenseMac(fileMac)
  {
    m := Zeros(8);
    for i := 0 to 4
      invariant |m| == 8
      invariant forall j | 0 <= j < i :: m[j] == XorByte(fileMac[j], fileMac[j + 4])
      invariant forall j | 4 <= j < 4 + i :: m[j] == XorByte(fileMac[j + 4], fileMac[j + 8])
    {
      m := m[i := XorByte(fileMac[i], fileMac[i + 4])][i + 4 := XorByte(fileMac[i + 8], fileMac[i + 12])];
    }
  }

  /**
   * CopyBlock when the bytes already written are y[a..b] and the new ones are the stretch of y
   * that follows: afterwards dest holds y[a..] up to the end of the new part.
   */
  method CopyStretch(part: seq<byte>, dest: array<byte>, at: int, ghost d0: seq<byte>, ghost from: nat, ghost y: seq<byte>, ghost a: int, ghost b: int)
    requires 0 <= a <= b && b + |part| <= |y| && part == y[b..b + |part|]
    requires at == from + (b - a) && at + |part| <= |d0| == dest.Length
    requires dest[..] == d0[..from] + y[a..b] + d0[at..]
    modifies dest
    ensures dest[..] == d0[..from] + y[a..b + |part|] + d0[at + |part|..]
  {
    CopyBlock(part, dest, at, d0, from, y[a..b]);
    SliceJoin(y, a, b, b + |part|);
  }

  /** Array.Copy of all of `src` into dest at destIndex. */
  method ArrayCopy(src: seq<byte>, dest: array<byte>, destIndex: int)
    requires 0 <= destIndex && destIndex + |src| <= dest.Length
    modifies dest
    ensures dest[..] == old(dest[..])[..destIndex] + src + old(dest[..])[destIndex + |src|..]
  {
    forall j | 0 <= j < |src| {
      dest[destIndex + j] := src[j];
    }
  }

  /**
   * The copy of one pass: `part` goes into dest at `at`, just after the `written` bytes that
   * earlier passes put at `from` over the original contents d0.
   */
  method CopyBlock(part: seq<byte>, dest: array<byte>, at: int, ghost d0: seq<byte>, ghost from: nat, ghost written: seq<byte>)
    requires at == from + |written| && from + |written| + |part| <= |d0| == dest.Length
    requires dest[..] == d0[..from] + written + d0[at..]
    modifies dest
    ensures dest[..] == d0[..from] + (written + part) + d0[at + |part|..]
  {
    ArrayCopy(part, dest, at);
  }
}
