/**
 * What MegaStream.ProcessChunk computes, as functions of the bytes and the MAC state: AES in
 * counter mode with a 64-bit nonce and a 64-bit big-endian block counter, together with a
 * CBC-MAC per chunk (seeded with the nonce twice) whose results are chained into a file MAC,
 * finally condensed into the 8-byte meta-MAC.
 */
module StreamCipher {
  import opened Bytes
  import opened BlockCipher

  datatype Mode = Encrypt | Decrypt

  /** The 8-byte nonce (MegaStream._iv). */
  type Nonce = s: seq<byte> | |s| == 8 witness Zeros(8)

  /**
   * The constants of one MegaStream: the AES oracle, the file key, the nonce, the chunk plan and
   * the key stream, block by block, that they determine (CounterModeKeystream).
   */
  datatype Cipher = Cipher(aes: Aes, key: Block, iv: Nonce, chunks: seq<nat>, keystream: nat -> Block)

  /**
   * The MAC state ProcessChunk carries from call to call: the next counter value
   * (_currentCounter), the running chunk MAC and the running file MAC.
   */
  datatype MacState = MacState(counter: nat, chunkMac: Block, fileMac: Block)

  datatype Transformed = Transformed(output: seq<byte>, state: MacState)

  /** A new stream: counter 0, both MAC buffers zero. */
  const InitialState := MacState(0, Zeros(16), Zeros(16))

  /** Counter n as 8 big-endian bytes: byte i is digit 7 - i of n in base 256 (n modulo 2^64). */
  function CounterBytes(n: nat): seq<byte>
  {
    seq(8, i requires 0 <= i < 8 => ((n / Pow256(7 - i)) % 256) as byte)
  }

  /** The AES input for block n: the nonce followed by the counter bytes. */
  function CounterBlock(iv: Nonce, n: nat): Block
  {
    iv + CounterBytes(n)
  }

  /** The counter bytes are the 8-byte big-endian encoding of n. */
  lemma CounterBytesBigEndian(n: nat)
    ensures CounterBytes(n) == ToBigEndian(n, 8)
  {
    forall i | 0 <= i < 8
      ensures CounterBytes(n)[i] == ToBigEndian(n, 8)[i]
    {
      ToBigEndianDigit(n, 8, i);
    }
  }

  /** The AES input is the nonce, then the counter, which reads back as n below 2^64. */
  lemma CounterBlockValue(iv: Nonce, n: nat)
    ensures CounterBlock(iv, n)[..8] == iv
    ensures CounterBlock(iv, n)[8..] == ToBigEndian(n, 8)
    ensures n < Pow256(8) ==> FromBigEndian(CounterBlock(iv, n)[8..]) == n
  {
    CounterBytesBigEndian(n);
    assert CounterBlock(iv, n)[8..] == CounterBytes(n);
    if n < Pow256(8) {
      FromToBigEndian(n, 8);
    }
  }

  /** Every AES input is the nonce followed by the 8-byte big-endian counter. */
  lemma CounterBlocksBigEndian(iv: Nonce)
    ensures forall n: nat {:trigger CounterBlock(iv, n)} :: CounterBlock(iv, n) == iv + ToBigEndian(n, 8)
  {
    forall n: nat
      ensures CounterBlock(iv, n) == iv + ToBigEndian(n, 8)
    {
      CounterBytesBigEndian(n);
    }
  }

  /**
   * AES in counter mode: key-stream block n is the encryption under the file key of the nonce
   * followed by n as 8 big-endian bytes.
   */
  function CounterModeKeystream(aes: Aes, key: Block, iv: Nonce): (ks: nat -> Block)
    ensures forall n: nat {:trigger ks(n)} :: ks(n) == aes.encrypt(key, iv + ToBigEndian(n, 8))
  {
    CounterBlocksBigEndian(iv);
    n => aes.encrypt(key, CounterBlock(iv, n))
  }

  /** The 64-bit counter wraps: block n + 2^64 repeats the key stream of block n. */
  lemma KeystreamWraps(aes: Aes, key: Block, iv: Nonce, n: nat)
    ensures CounterModeKeystream(aes, key, iv)(n + Pow256(8)) == CounterModeKeystream(aes, key, iv)(n)
  {
    ToBigEndianWraps(n, 8);
  }

  /** The cipher of a MegaStream with the given AES oracle, file key, nonce and chunk plan. */
  function MegaCipher(aes: Aes, key: Block, iv: Nonce, chunks: seq<nat>): (c: Cipher)
    ensures c.aes == aes && c.key == key && c.iv == iv && c.chunks == chunks
    ensures forall n: nat {:trigger CounterBlock(iv, n)} :: c.keystream(n) == aes.encrypt(key, CounterBlock(iv, n))
  {
    Cipher(aes, key, iv, chunks, CounterModeKeystream(aes, key, iv))
  }

  /** A block starting at `pos` opens a new MAC chunk: the start of the file or a plan entry. */
  predicate IsChunkStart(c: Cipher, pos: nat)
  {
    pos == 0 || pos in c.chunks
  }

  /** Every chunk MAC starts from the nonce written twice. */
  function ChunkMacSeed(iv: Nonce): (r: Block)
    ensures r[..8] == iv && r[8..] == iv
  {
    iv + iv
  }

  /** MegaStream.ComputeChunk: chain a finished chunk MAC into the file MAC. */
  function FoldMac(c: Cipher, fileMac: Block, chunkMac: Block): Block
  {
    c.aes.encrypt(c.key, Xor(fileMac, chunkMac))
  }

  /** Xor a (possibly short, final) block into the first bytes of the MAC; the rest stays. */
  function Absorb(mac: Block, data: seq<byte>): Block
    requires |data| <= 16
  {
    Xor(mac[..|data|], data) + mac[|data|..]
  }

  /** Byte by byte: the data is xor-ed into the front of the MAC, the bytes past it are unchanged. */
  lemma AbsorbBytes(mac: Block, data: seq<byte>)
    requires |data| <= 16
    ensures forall i | 0 <= i < |data| :: Absorb(mac, data)[i] == XorByte(mac[i], data[i])
    ensures forall i | |data| <= i < 16 :: Absorb(mac, data)[i] == mac[i]
  {
  }

  /**
   * The MAC half of one iteration of ProcessChunk's loop, for the (at most 16-byte) block at file
   * position pos whose plaintext is `plain`: at a chunk start other than the first the finished
   * chunk MAC is folded into the file MAC, and at every chunk start the chunk MAC restarts from
   * the seed; the counter moves on; the plaintext is absorbed and the chunk MAC encrypted.
   */
  function MacStep(c: Cipher, pos: nat, s: MacState, plain: seq<byte>): MacState
    requires |plain| <= 16
  {
    var fileMac := if IsChunkStart(c, pos) && pos != 0 then FoldMac(c, s.fileMac, s.chunkMac) else s.fileMac;
    var chunkMac := if IsChunkStart(c, pos) then ChunkMacSeed(c.iv) else s.chunkMac;
    MacState(s.counter + 1, c.aes.encrypt(c.key, Absorb(chunkMac, plain)), fileMac)
  }

  /**
   * One iteration of ProcessChunk's loop: the block xor-ed with the key stream of the current
   * counter, and the MAC advanced over the plaintext side (the input when encrypting, the
   * output when decrypting).
   */
  function BlockStep(c: Cipher, mode: Mode, pos: nat, s: MacState, block: seq<byte>): (r: Transformed)
    requires |block| <= 16
    ensures |r.output| == |block| && r.state.counter == s.counter + 1
  {
    var output := Xor(c.keystream(s.counter)[..|block|], block);
    Transformed(output, MacStep(c, pos, s, if mode == Encrypt then block else output))
  }

  /** The block that starts the data: 16 bytes, or all of it when shorter. */
  function FirstBlockLength(n: nat): nat
  {
    if n < 16 then n else 16
  }

  /** The number of 16-byte blocks, the last one possibly short, that `n` bytes make. */
  function BlockCount(n: nat): nat
  {
    (n + 15) / 16
  }

  /** The key-stream half of ProcessChunk: block by block, each xor-ed with the next counter's key stream. */
  function Crypt(c: Cipher, counter: nat, input: seq<byte>): (r: seq<byte>)
    ensures |r| == |input|
    decreases |input|
  {
    if input == [] then []
    else
      var n := FirstBlockLength(|input|);
      Xor(c.keystream(counter)[..n], input[..n]) + Crypt(c, counter + 1, input[n..])
  }

  /** The MAC half of ProcessChunk: MacStep over the plaintext block by block, positions 16 apart. */
  function Chain(c: Cipher, pos: nat, s: MacState, plain: seq<byte>): MacState
    decreases |plain|
  {
    if plain == [] then s
    else
      var n := FirstBlockLength(|plain|);
      Chain(c, pos + 16, MacStep(c, pos, s, plain[..n]), plain[n..])
  }

  /** The plaintext side of a transformation: the input when encrypting, the output when decrypting. */
  function PlainSide(c: Cipher, mode: Mode, counter: nat, input: seq<byte>): (r: seq<byte>)
    ensures |r| == |input|
  {
    if mode == Encrypt then input else Crypt(c, counter, input)
  }

  /**
   * ProcessChunk on `input`, the bytes it transforms, starting at file position pos with MAC
   * state s: the key-stream output, and the MAC state after the plaintext side went through.
   */
  function Process(c: Cipher, mode: Mode, pos: nat, s: MacState, input: seq<byte>): (r: Transformed)
    ensures |r.output| == |input|
  {
    Transformed(Crypt(c, s.counter, input), Chain(c, pos, s, PlainSide(c, mode, s.counter, input)))
  }

  /** Up to one block, Process is exactly one loop iteration. */
  lemma ProcessOneBlock(c: Cipher, mode: Mode, pos: nat, s: MacState, block: seq<byte>)
    requires 0 < |block| <= 16
    ensures Process(c, mode, pos, s, block) == BlockStep(c, mode, pos, s, block)
  {
    var output := CryptOneBlock(c, s.counter, block);
    ChainOneBlock(c, pos, s, PlainSide(c, mode, s.counter, block));
  }

  lemma CryptOneBlock(c: Cipher, counter: nat, block: seq<byte>) returns (output: seq<byte>)
    requires 0 < |block| <= 16
    ensures output == Xor(c.keystream(counter)[..|block|], block)
    ensures Crypt(c, counter, block) == output
  {
    output := Xor(c.keystream(counter)[..|block|], block);
    var n := FirstBlockLength(|block|);
    assert n == |block|;
    assert block[..n] == block && block[n..] == [];
    assert output + [] == output;
  }

  lemma ChainOneBlock(c: Cipher, pos: nat, s: MacState, plain: seq<byte>)
    requires 0 < |plain| <= 16
    ensures Chain(c, pos, s, plain) == MacStep(c, pos, s, plain)
  {
    var n := FirstBlockLength(|plain|);
    assert n == |plain|;
    assert plain[..n] == plain && plain[n..] == [];
  }

  // ---------------------------------------------------------------------------------------
  // The key stream

  lemma CryptFirst(c: Cipher, counter: nat, input: seq<byte>, r: nat)
    requires r < 16 && r < |input|
    ensures Crypt(c, counter, input)[r] == XorByte(c.keystream(counter)[r], input[r])
  {
    var n := FirstBlockLength(|input|);
    assert Crypt(c, counter, input)[r] == Xor(c.keystream(counter)[..n], input[..n])[r];
  }

  /** Past a full first block, Crypt goes on with the next counter. */
  lemma CryptTail(c: Cipher, counter: nat, input: seq<byte>)
    requires 16 <= |input|
    ensures Crypt(c, counter, input)[16..] == Crypt(c, counter + 1, input[16..])
  {
    assert FirstBlockLength(|input|) == 16;
  }

  /** Byte r of block k of the output is byte r of key-stream block (counter + k) xor the input byte. */
  lemma {:induction false} CryptKeystream(c: Cipher, counter: nat, input: seq<byte>, k: nat, r: nat)
    requires r < 16 && 16 * k + r < |input|
    ensures Crypt(c, counter, input)[16 * k + r] == XorByte(c.keystream(counter + k)[r], input[16 * k + r])
    decreases k
  {
    if k == 0 {
      CryptFirst(c, counter, input, r);
    } else {
      CryptLater(c, counter, input, k, r);
    }
  }

  lemma {:induction false} CryptLater(c: Cipher, counter: nat, input: seq<byte>, k: nat, r: nat)
    requires r < 16 && 16 * k + r < |input| && k > 0
    ensures Crypt(c, counter, input)[16 * k + r] == XorByte(c.keystream(counter + k)[r], input[16 * k + r])
    decreases k, 0
  {
    var j := 16 * (k - 1) + r;
    var tail := input[16..];
    CryptTail(c, counter, input);
    assert Crypt(c, counter, input)[16 * k + r] == Crypt(c, counter + 1, tail)[j];
    CryptKeystream(c, counter + 1, tail, k - 1, r);
    assert tail[j] == input[16 * k + r];
  }

  lemma CryptByte(c: Cipher, counter: nat, input: seq<byte>, i: nat)
    requires i < |input|
    ensures Crypt(c, counter, input)[i] == XorByte(c.keystream(counter + i / 16)[i % 16], input[i])
  {
    CryptKeystream(c, counter, input, i / 16, i % 16);
  }

  /**
   * Byte i of ProcessChunk's output is byte i mod 16 of the key stream of counter
   * (s.counter + i / 16), xor byte i of the input, whatever the mode and the position.
   */
  lemma ProcessKeystream(c: Cipher, mode: Mode, pos: nat, s: MacState, input: seq<byte>, i: nat)
    requires i < |input|
    ensures Process(c, mode, pos, s, input).output[i] == XorByte(c.keystream(s.counter + i / 16)[i % 16], input[i])
  {
    CryptByte(c, s.counter, input, i);
  }

  /** Applying the same key stream twice gives the data back. */
  lemma CryptTwice(c: Cipher, counter: nat, data: seq<byte>)
    ensures Crypt(c, counter, Crypt(c, counter, data)) == data
  {
    var once := Crypt(c, counter, data);
    forall i | 0 <= i < |data|
      ensures Crypt(c, counter, once)[i] == data[i]
    {
      CryptByte(c, counter, data, i);
      CryptByte(c, counter, once, i);
      XorByteCancel(c.keystream(counter + i / 16)[i % 16], data[i]);
    }
  }

  /** Transforming a whole number of blocks, then the rest, is transforming everything at once. */
  lemma CryptAppend(c: Cipher, counter: nat, a: seq<byte>, b: seq<byte>)
    requires |a| % 16 == 0
    ensures Crypt(c, counter, a + b) == Crypt(c, counter, a) + Crypt(c, counter + |a| / 16, b)
  {
    forall i | 0 <= i < |a + b|
      ensures Crypt(c, counter, a + b)[i] == (Crypt(c, counter, a) + Crypt(c, counter + |a| / 16, b))[i]
    {
      if i < |a| {
        CryptAppendFront(c, counter, a, b, i);
      } else {
        CryptAppendBack(c, counter, a, b, i);
      }
    }
  }

  lemma CryptAppendFront(c: Cipher, counter: nat, a: seq<byte>, b: seq<byte>, i: nat)
    requires i < |a|
    ensures Crypt(c, counter, a + b)[i] == Crypt(c, counter, a)[i]
  {
    CryptByte(c, counter, a + b, i);
    CryptByte(c, counter, a, i);
  }

  lemma CryptAppendBack(c: Cipher, counter: nat, a: seq<byte>, b: seq<byte>, i: nat)
    requires |a| % 16 == 0 && |a| <= i < |a| + |b|
    ensures Crypt(c, counter, a + b)[i] == Crypt(c, counter + |a| / 16, b)[i - |a|]
  {
    var j := i - |a|;
    CryptByte(c, counter, a + b, i);
    CryptByte(c, counter + |a| / 16, b, j);
    assert j / 16 + |a| / 16 == i / 16 && j % 16 == i % 16;
    assert (a + b)[i] == b[j];
  }

  // ---------------------------------------------------------------------------------------
  // The MAC chain

  /** The MAC chain consumes one counter value per block, the last one possibly short. */
  lemma {:induction false} ChainCounter(c: Cipher, pos: nat, s: MacState, plain: seq<byte>)
    ensures Chain(c, pos, s, plain).counter == s.counter + BlockCount(|plain|)
    decreases |plain|
  {
    if plain != [] {
      var n := FirstBlockLength(|plain|);
      ChainCounter(c, pos + 16, MacStep(c, pos, s, plain[..n]), plain[n..]);
    }
  }

  /** One unfolding of Chain past a full first block. */
  lemma ChainTail(c: Cipher, pos: nat, next: nat, s: MacState, plain: seq<byte>)
    requires 16 <= |plain| && next == pos + 16
    ensures Chain(c, pos, s, plain) == Chain(c, next, MacStep(c, pos, s, plain[..16]), plain[16..])
  {
    assert FirstBlockLength(|plain|) == 16;
  }

  /** The chain over whole blocks, then over the rest, is the chain over everything at once. */
  lemma {:induction false} ChainAppend(c: Cipher, pos: nat, s: MacState, a: seq<byte>, b: seq<byte>, blocks: nat)
    requires |a| == 16 * blocks
    ensures Chain(c, pos, s, a + b) == Chain(c, pos + |a|, Chain(c, pos, s, a), b)
    decreases blocks
  {
    if blocks == 0 {
      assert a + b == b;
    } else {
      ChainAppendStep(c, pos, s, a, b, blocks);
    }
  }

  lemma {:induction false} ChainAppendStep(c: Cipher, pos: nat, s: MacState, a: seq<byte>, b: seq<byte>, blocks: nat)
    requires |a| == 16 * blocks && blocks > 0
    ensures Chain(c, pos, s, a + b) == Chain(c, pos + |a|, Chain(c, pos, s, a), b)
    decreases blocks, 0
  {
    var next := pos + 16;
    var tail := a[16..];
    var t := MacStep(c, pos, s, a[..16]);
    ChainTailAppend(c, pos, next, s, a, b);
    ChainTail(c, pos, next, s, a);
    ChainAppend(c, next, t, tail, b, blocks - 1);
    assert pos + |a| == next + |tail|;
  }

  lemma ChainTailAppend(c: Cipher, pos: nat, next: nat, s: MacState, a: seq<byte>, b: seq<byte>)
    requires 16 <= |a| && next == pos + 16
    ensures Chain(c, pos, s, a + b) == Chain(c, next, MacStep(c, pos, s, a[..16]), a[16..] + b)
  {
    var ab := a + b;
    assert ab[..16] == a[..16];
    assert ab[16..] == a[16..] + b;
    ChainTail(c, pos, next, s, ab);
  }

  // ---------------------------------------------------------------------------------------
  // Whole calls

  /** The output does not depend on the direction: encryption and decryption xor the same key stream. */
  lemma OutputIgnoresMode(c: Cipher, pos: nat, s: MacState, t: MacState, input: seq<byte>)
    requires s.counter == t.counter
    ensures Process(c, Encrypt, pos, s, input).output == Process(c, Decrypt, pos, t, input).output
  {
  }

  /** Every call consumes one counter value per (possibly short) block. */
  lemma ProcessCounter(c: Cipher, mode: Mode, pos: nat, s: MacState, input: seq<byte>)
    ensures Process(c, mode, pos, s, input).state.counter == s.counter + BlockCount(|input|)
  {
    ChainCounter(c, pos, s, PlainSide(c, mode, s.counter, input));
  }

  /** The plaintext side of whole blocks and a rest is the two plaintext sides laid end to end. */
  lemma PlainSideAppend(c: Cipher, mode: Mode, counter: nat, a: seq<byte>, b: seq<byte>)
    requires |a| % 16 == 0
    ensures PlainSide(c, mode, counter, a + b) == PlainSide(c, mode, counter, a) + PlainSide(c, mode, counter + |a| / 16, b)
  {
    if mode == Decrypt {
      CryptAppend(c, counter, a, b);
    }
  }

  /**
   * Processing in two calls, the first ending on a block boundary, is processing in one: the
   * second call resumes from the first call's state, |a| positions later.
   */
  lemma ProcessAppend(c: Cipher, mode: Mode, pos: nat, s: MacState, a: seq<byte>, b: seq<byte>)
    requires |a| % 16 == 0
    ensures var first := Process(c, mode, pos, s, a);
            var second := Process(c, mode, pos + |a|, first.state, b);
            Process(c, mode, pos, s, a + b) == Transformed(first.output + second.output, second.state)
  {
    var k := s.counter + |a| / 16;
    ProcessAppendOutput(c, mode, pos, s, a, b, k);
    ProcessAppendState(c, mode, pos, s, a, b, k);
  }

  /** The output half of ProcessAppend; k is the counter after a. */
  lemma ProcessAppendOutput(c: Cipher, mode: Mode, pos: nat, s: MacState, a: seq<byte>, b: seq<byte>, k: nat)
    requires |a| % 16 == 0 && k == s.counter + |a| / 16
    ensures Process(c, mode, pos, s, a).state.counter == k
    ensures Process(c, mode, pos, s, a + b).output == Process(c, mode, pos, s, a).output + Crypt(c, k, b)
  {
    ProcessCounter(c, mode, pos, s, a);
    assert BlockCount(|a|) == |a| / 16;
    calc {
      Process(c, mode, pos, s, a + b).output;
      Crypt(c, s.counter, a + b);
      { CryptAppend(c, s.counter, a, b); }
      Crypt(c, s.counter, a) + Crypt(c, k, b);
    }
  }

  /** The state half of ProcessAppend; k is the counter after a. */
  lemma ProcessAppendState(c: Cipher, mode: Mode, pos: nat, s: MacState, a: seq<byte>, b: seq<byte>, k: nat)
    requires |a| % 16 == 0 && k == s.counter + |a| / 16
    ensures Process(c, mode, pos, s, a + b).state
            == Chain(c, pos + |a|, Process(c, mode, pos, s, a).state, PlainSide(c, mode, k, b))
  {
    PlainSideAppend(c, mode, s.counter, a, b);
    ChainAppend(c, pos, s, PlainSide(c, mode, s.counter, a), PlainSide(c, mode, k, b), |a| / 16);
  }


  /**
   * One more loop iteration: the bytes transformed so far (a whole number of blocks, ending at
   * file position pos and leaving state st), followed by the next block of at most 16 bytes,
   * which BlockStep turns into `output` and state `next`, are the transformation of the longer
   * prefix.
   */
  lemma ProcessExtend(c: Cipher, mode: Mode, start: nat, s: MacState, src: seq<byte>, done: nat, end: nat,
                      pos: nat, st: MacState, block: seq<byte>, output: seq<byte>, next: MacState)
    requires done % 16 == 0 && done < end <= done + 16 && end <= |src|
    requires pos == start + done && block == src[done..end]
    requires st == Process(c, mode, start, s, src[..done]).state
    requires output == BlockStep(c, mode, pos, st, block).output && next == BlockStep(c, mode, pos, st, block).state
    ensures Process(c, mode, start, s, src[..end]).output == Process(c, mode, start, s, src[..done]).output + output
    ensures Process(c, mode, start, s, src[..end]).state == next
  {
    var a := src[..done];
    assert a + block == src[..end];
    ProcessAppend(c, mode, start, s, a, block);
    ProcessOneBlock(c, mode, pos, st, block);
  }

  /**
   * Decrypting what was encrypted, from the same position and state, gives back the plaintext
   * and leaves exactly the same MAC state: the decryptor MACs its output, which is the
   * encryptor's input.
   */
  lemma ProcessRoundTrip(c: Cipher, pos: nat, s: MacState, plain: seq<byte>)
    ensures var e := Process(c, Encrypt, pos, s, plain);
            Process(c, Decrypt, pos, s, e.output) == Transformed(plain, e.state)
  {
    CryptTwice(c, s.counter, plain);
  }

  /** The meta-MAC: the 16-byte file MAC folded to 8 bytes by xor-ing its 4-byte words pairwise. */
  function CondenseMac(f: Block): (m: seq<byte>)
    ensures |m| == 8
    ensures forall i | 0 <= i < 4 :: m[i] == XorByte(f[i], f[i + 4])
    ensures forall i | 4 <= i < 8 :: m[i] == XorByte(f[i + 4], f[i + 8])
  {
    Xor(f[..4], f[4..8]) + Xor(f[8..12], f[12..])
  }

  /** What Dispose computes once the whole file went through: fold the last chunk MAC, condense. */
  function Finish(c: Cipher, s: MacState): seq<byte>
  {
    CondenseMac(FoldMac(c, s.fileMac, s.chunkMac))
  }

  /** A whole file in one pass, from the start of the file and a new stream's state. */
  function WholeFile(c: Cipher, mode: Mode, data: seq<byte>): Transformed
  {
    Process(c, mode, 0, InitialState, data)
  }

  /** The meta-MAC an uploader computes for a plaintext file. */
  function MetaMac(c: Cipher, plain: seq<byte>): seq<byte>
  {
    Finish(c, WholeFile(c, Encrypt, plain).state)
  }

  /**
   * Downloading an uploaded file: decryption restores the plaintext, and the meta-MAC computed
   * on the way down equals the one computed on the way up.
   */
  lemma FileRoundTrip(c: Cipher, plain: seq<byte>)
    ensures WholeFile(c, Decrypt, WholeFile(c, Encrypt, plain).output).output == plain
    ensures Finish(c, WholeFile(c, Decrypt, WholeFile(c, Encrypt, plain).output).state) == MetaMac(c, plain)
  {
    ProcessRoundTrip(c, 0, InitialState, plain);
  }

  /** Cutting a sequence at k and joining the halves gives it back. */
  lemma SplitJoin(data: seq<byte>, k: nat)
    requires k <= |data|
    ensures data[..k] + data[k..] == data
  {
  }

  /** The prefix up to p followed by the stretch from p to q is the prefix up to q. */
  lemma PrefixJoin(data: seq<byte>, p: nat, q: nat)
    requires p <= q <= |data|
    ensures data[..p] + data[p..q] == data[..q]
  {
  }

  /** Only the first bytes of the output depend on the first bytes of the input. */
  lemma ProcessPrefix(c: Cipher, mode: Mode, pos: nat, s: MacState, data: seq<byte>, k: nat)
    requires k <= |data| && k % 16 == 0
    ensures Process(c, mode, pos, s, data).output[..k] == Process(c, mode, pos, s, data[..k]).output
  {
    var first := Process(c, mode, pos, s, data[..k]);
    var second := Process(c, mode, pos + k, first.state, data[k..]);
    ProcessAppend(c, mode, pos, s, data[..k], data[k..]);
    SplitJoin(data, k);
    assert Process(c, mode, pos, s, data).output == first.output + second.output;
    assert (first.output + second.output)[..k] == first.output;
  }

  /**
   * A stream that has transformed the first p bytes of a file, p a multiple of 16, and then
   * transforms the next n from its current state has transformed the first p + n bytes.
   */
  lemma WholeFileExtend(c: Cipher, mode: Mode, data: seq<byte>, p: nat, n: nat, s: MacState, out: seq<byte>, next: MacState)
    requires p % 16 == 0 && p + n <= |data|
    requires s == WholeFile(c, mode, data[..p]).state
    requires out == Process(c, mode, p, s, data[p..p + n]).output && next == Process(c, mode, p, s, data[p..p + n]).state
    ensures WholeFile(c, mode, data[..p + n]).output == WholeFile(c, mode, data[..p]).output + out
    ensures WholeFile(c, mode, data[..p + n]).state == next
  {
    PrefixJoin(data, p, p + n);
    ProcessAppend(c, mode, 0, InitialState, data[..p], data[p..p + n]);
  }

  /** The first k bytes of a whole-file pass, k on a block boundary or at the end, depend only on the first k bytes. */
  lemma WholeFilePrefix(c: Cipher, mode: Mode, data: seq<byte>, k: nat)
    requires k <= |data| && (k % 16 == 0 || k == |data|)
    ensures WholeFile(c, mode, data[..k]).output == WholeFile(c, mode, data).output[..k]
  {
    if k % 16 == 0 {
      ProcessPrefix(c, mode, 0, InitialState, data, k);
    } else {
      assert data[..k] == data;
    }
  }

  // ---------------------------------------------------------------------------------------
  // The length of one ProcessChunk call

  /**
   * The number of bytes ProcessChunk transforms, in 64-bit arithmetic: what the source buffer
   * holds past sourceIndex, but no further than the end of the stream.
   */
  function ChunkLength(available: int, streamLength: int, position: int): (r: int)
    ensures r <= available && r <= streamLength - position
    ensures r == available || r == streamLength - position
  {
    if available <= streamLength - position then available else streamLength - position
  }

  /** The same length with the remaining stream length cast to a 32-bit int first. */
  function ChunkLengthAsWritten(available: int, streamLength: int, position: int): int
  {
    var remaining := Truncate32(streamLength - position) as int;
    if available <= remaining then available else remaining
  }

  /**
   * With 2 GiB left in the stream, the cast turns the remaining length negative: a 16-byte read
   * transforms nothing, where the 64-bit length transforms all 16 bytes.
   */
  lemma TruncatedChunkLength()
    ensures ChunkLengthAsWritten(16, 0x8000_0000, 0) < 0
    ensures ChunkLength(16, 0x8000_0000, 0) == 16
  {
  }

  /** Below 2 GiB remaining the cast is harmless. */
  lemma ChunkLengthAgrees(available: int, streamLength: int, position: int)
    requires 0 <= streamLength - position <= Int32MaxValue as int
    ensures ChunkLengthAsWritten(available, streamLength, position) == ChunkLength(available, streamLength, position)
  {
  }
}
