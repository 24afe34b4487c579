/**
 * Crypto.cs: the block-wise key wrap (every 16-byte block through its own zero-IV AES
 * transform, which makes it ECB), the recovery of the four RSA private-key components from
 * the wrapped key, and the raw RSA decryption.
 */
module Crypto {
  import opened Bytes
  import opened Wrappers
  import opened BlockCipher
  import Extensions

  datatype CryptoError =
    | InvalidLength   // a key buffer whose length is not a multiple of 16
    | MalformedKey    // a length-prefixed component runs past the end of the key buffer
    | ZeroModulus     // p * q is zero

  /** Crypto.EncryptAes on one block: a fresh zero-IV transform, i.e. one AES encryption. */
  function EncryptAes(aes: Aes, data: Block, key: Block): Block
  {
    aes.encrypt(key, data)
  }

  /** Crypto.DecryptAes on one block. */
  function DecryptAes(aes: Aes, data: Block, key: Block): Block
  {
    aes.decrypt(key, data)
  }

  function Encryptor(aes: Aes, key: Block): Block -> Block
  {
    b => EncryptAes(aes, b, key)
  }

  function Decryptor(aes: Aes, key: Block): Block -> Block
  {
    b => DecryptAes(aes, b, key)
  }

  /** f applied to every 16-byte block on its own, the blocks kept in place. */
  function Blockwise(f: Block -> Block, data: seq<byte>): (r: seq<byte>)
    requires |data| % 16 == 0
    ensures |r| == |data|
    decreases |data|
  {
    if |data| == 0 then [] else f(data[..16]) + Blockwise(f, data[16..])
  }

  lemma {:induction false} BlockwiseAppend(f: Block -> Block, a: seq<byte>, b: seq<byte>)
    requires |a| % 16 == 0 && |b| % 16 == 0
    ensures Blockwise(f, a + b) == Blockwise(f, a) + Blockwise(f, b)
    decreases |a|
  {
    if |a| == 0 {
      assert a + b == b;
    } else {
      assert (a + b)[..16] == a[..16];
      assert (a + b)[16..] == a[16..] + b;
      BlockwiseAppend(f, a[16..], b);
    }
  }

  /** Blockwise over one more block: the block's image appended. */
  lemma BlockwiseExtend(f: Block -> Block, data: seq<byte>, idx: nat, block: seq<byte>)
    requires idx % 16 == 0 && idx + 16 <= |data| && block == data[idx..idx + 16]
    ensures Blockwise(f, data[..idx + 16]) == Blockwise(f, data[..idx]) + f(block)
  {
    assert data[..idx + 16] == data[..idx] + block;
    BlockwiseAppend(f, data[..idx], block);
    assert block[..16] == block && block[16..] == [];
  }

  /** Output block i is f of input block i alone. */
  lemma {:induction false} BlockwiseAt(f: Block -> Block, data: seq<byte>, i: nat)
    requires |data| % 16 == 0 && 16 * i + 16 <= |data|
    ensures Blockwise(f, data)[16 * i..16 * i + 16] == f(data[16 * i..16 * i + 16])
    decreases i
  {
    if i > 0 {
      BlockwiseAt(f, data[16..], i - 1);
      assert data[16..][16 * (i - 1)..16 * (i - 1) + 16] == data[16 * i..16 * i + 16];
    }
  }

  /** No chaining: equal plaintext blocks give equal wrapped blocks wherever they stand. */
  lemma EqualBlocksWrapEqually(aes: Aes, key: Block, data: seq<byte>, i: nat, j: nat)
    requires |data| % 16 == 0 && 16 * i + 16 <= |data| && 16 * j + 16 <= |data|
    requires data[16 * i..16 * i + 16] == data[16 * j..16 * j + 16]
    ensures Blockwise(Encryptor(aes, key), data)[16 * i..16 * i + 16]
         == Blockwise(Encryptor(aes, key), data)[16 * j..16 * j + 16]
  {
    BlockwiseAt(Encryptor(aes, key), data, i);
    BlockwiseAt(Encryptor(aes, key), data, j);
  }

  /** DecryptKey(EncryptKey(x, k), k) == x when AES decryption inverts encryption. */
  lemma {:induction false} KeyWrapRoundTrip(aes: Aes, key: Block, data: seq<byte>)
    requires Inverts(aes) && |data| % 16 == 0
    ensures Blockwise(Decryptor(aes, key), Blockwise(Encryptor(aes, key), data)) == data
    decreases |data|
  {
    if |data| > 0 {
      var wrapped := Blockwise(Encryptor(aes, key), data);
      assert wrapped[..16] == EncryptAes(aes, data[..16], key);
      assert wrapped[16..] == Blockwise(Encryptor(aes, key), data[16..]);
      KeyWrapRoundTrip(aes, key, data[16..]);
    }
  }

  /**
   * The loop shared by EncryptKey and DecryptKey: each 16-byte slice (CopySubArray pads it) goes
   * through `transform` and is copied back at the same index; the copy of the last slice of a
   * length that is not a multiple of 16 overruns the result and throws.
   */
  method TransformBlocks(transform: Block -> Block, data: seq<byte>) returns (r: Result<seq<byte>, CryptoError>)
    ensures r.Success? <==> |data| % 16 == 0
    ensures r.Success? ==> r.value == Blockwise(transform, data)
  {
    var result := new byte[|data|];
    var idx := 0;
    while idx < |data|
      invariant 0 <= idx <= |data| && idx % 16 == 0
      invariant result[..idx] == Blockwise(transform, data[..idx])
    {
      var block := Extensions.CopySubArray(data, 16, idx, 0);
      var transformed := transform(block);
      if idx + 16 > result.Length {
        return Failure(InvalidLength);
      }
      ghost var before := result[..idx];
      forall k | 0 <= k < 16 {
        result[idx + k] := transformed[k];
      }
      assert result[..idx + 16] == before + transformed;
      BlockwiseExtend(transform, data, idx, block);
      idx := idx + 16;
    }
    assert data[..idx] == data;
    return Success(result[..]);
  }

  /** EncryptKey: wrap key material block by block; the result has the input's length. */
  method EncryptKey(aes: Aes, data: seq<byte>, key: Block) returns (r: Result<seq<byte>, CryptoError>)
    ensures r.Success? <==> |data| % 16 == 0
    ensures r.Success? ==> |r.value| == |data| && r.value == Blockwise(Encryptor(aes, key), data)
  {
    r := TransformBlocks(Encryptor(aes, key), data);
  }

  /** DecryptKey: unwrap key material block by block; the result has the input's length. */
  method DecryptKey(aes: Aes, data: seq<byte>, key: Block) returns (r: Result<seq<byte>, CryptoError>)
    ensures r.Success? <==> |data| % 16 == 0
    ensures r.Success? ==> |r.value| == |data| && r.value == Blockwise(Decryptor(aes, key), data)
  {
    r := TransformBlocks(Decryptor(aes, key), data);
  }

  // ---------------------------------------------------------------------------------------
  // RSA private key

  /**
   * The zero padding applied to a wrapped RSA key before unwrapping: always 1 to 16 bytes, so
   * a length that is already a multiple of 16 still grows by a whole block.
   */
  function PadToBlocks(data: seq<byte>): (r: seq<byte>)
    ensures |r| == |data| + (16 - |data| % 16)
    ensures |r| % 16 == 0 && |data| < |r| <= |data| + 16
    ensures r[..|data|] == data && forall i | |data| <= i < |r| :: r[i] == 0
  {
    data + Zeros(16 - |data| % 16)
  }

  /**
   * Reads `count` length-prefixed integers off the front of the buffer, each time dropping the
   * 2 + ceil(bits / 8) bytes that the current header announces.
   */
  function Peel(buffer: seq<byte>, count: nat): (r: Option<seq<nat>>)
    ensures r.Some? ==> |r.value| == count
  {
    if count == 0 then Some([])
    else
      match Extensions.FromMPINumber(buffer)
      case None => None
      case Some(v) =>
        match Peel(buffer[2 + Extensions.MpiByteLength(buffer)..], count - 1)
        case None => None
        case Some(vs) => Some([v] + vs)
  }

  /** The components that GetRsaPrivateKeyComponents recovers: p, q, d and a fourth one. */
  function RecoverComponents(aes: Aes, encodedRsaPrivateKey: seq<byte>, masterKey: Block): Option<seq<nat>>
  {
    Peel(Blockwise(Decryptor(aes, masterKey), PadToBlocks(encodedRsaPrivateKey)), 4)
  }

  function Prepend(done: seq<nat>, rest: Option<seq<nat>>): Option<seq<nat>>
  {
    match rest
    case None => None
    case Some(vs) => Some(done + vs)
  }

  lemma PrependNothing(rest: Option<seq<nat>>)
    ensures Prepend([], rest) == rest
  {
    if rest.Some? {
      assert [] + rest.value == rest.value;
    }
  }

  lemma PrependStep(done: seq<nat>, v: nat, rest: Option<seq<nat>>)
    ensures Prepend(done, Prepend([v], rest)) == Prepend(done + [v], rest)
  {
    if rest.Some? {
      assert done + ([v] + rest.value) == done + [v] + rest.value;
    }
  }

  /**
   * GetRsaPrivateKeyComponents: pad with zeros, unwrap under the master key, then decode four
   * components in turn, slicing the consumed prefix off the buffer after each.
   */
  method GetRsaPrivateKeyComponents(aes: Aes, encodedRsaPrivateKey: seq<byte>, masterKey: Block)
      returns (r: Result<seq<nat>, CryptoError>)
    ensures r.Success? <==> RecoverComponents(aes, encodedRsaPrivateKey, masterKey).Some?
    ensures r.Success? ==> |r.value| == 4 && Some(r.value) == RecoverComponents(aes, encodedRsaPrivateKey, masterKey)
  {
    var len := |encodedRsaPrivateKey|;
    var padded := Extensions.CopySubArray(encodedRsaPrivateKey, len + (16 - len % 16), 0, 0);
    assert padded == PadToBlocks(encodedRsaPrivateKey);
    var unwrapped := DecryptKey(aes, padded, masterKey);
    var rsaPrivateKey := unwrapped.value;
    ghost var whole := rsaPrivateKey;
    var components := new nat[4];
    PrependNothing(Peel(whole, 4));
    for i := 0 to 4
      invariant Peel(whole, 4) == Prepend(components[..i], Peel(rsaPrivateKey, 4 - i))
    {
      var component := Extensions.FromMPINumber(rsaPrivateKey);
      if component.None? {
        return Failure(MalformedKey);
      }
      components[i] := component.value;
      var dataLength := (rsaPrivateKey[0] as nat * 256 + rsaPrivateKey[1] as nat + 7) / 8;
      ghost var before := rsaPrivateKey;
      rsaPrivateKey := Extensions.CopySubArray(rsaPrivateKey, |rsaPrivateKey| - dataLength - 2, dataLength + 2, 0);
      assert rsaPrivateKey == before[2 + Extensions.MpiByteLength(before)..];
      PrependStep(components[..i], component.value, Peel(rsaPrivateKey, 3 - i));
      assert components[..i + 1] == components[..i] + [component.value];
    }
    assert components[..4] == components[..];
    assert components[..] + [] == components[..];
    return Success(components[..]);
  }

  /** The concatenated MPI encodings of a list of values. */
  function EncodeAll(vs: seq<nat>): seq<byte>
    requires forall i | 0 <= i < |vs| :: Extensions.BitLength(vs[i]) < 65536
  {
    if vs == [] then [] else Extensions.ToMPINumber(vs[0]) + EncodeAll(vs[1..])
  }

  /** Peeling a buffer that starts with the encodings of vs gives back vs. */
  lemma {:induction false} PeelEncoded(vs: seq<nat>, tail: seq<byte>)
    requires forall i | 0 <= i < |vs| :: Extensions.BitLength(vs[i]) < 65536
    ensures Peel(EncodeAll(vs) + tail, |vs|) == Some(vs)
  {
    if vs != [] {
      var rest := EncodeAll(vs[1..]) + tail;
      var buffer := EncodeAll(vs) + tail;
      var head := Extensions.ToMPINumber(vs[0]);
      assert buffer == head + rest;
      Extensions.MpiRoundTrip(vs[0], rest);
      assert Extensions.FromMPINumber(buffer) == Some(vs[0]);
      assert 2 + Extensions.MpiByteLength(buffer) == |head|;
      assert buffer[|head|..] == rest;
      PeelEncoded(vs[1..], tail);
      assert Peel(rest, |vs| - 1) == Some(vs[1..]);
      assert [vs[0]] + vs[1..] == vs;
    }
  }

  /**
   * End to end: a key made of four MPI-encoded components (plus any filler up to a multiple of
   * 16) and wrapped with EncryptKey is recovered component for component, the extra block of
   * zero padding notwithstanding.
   */
  lemma RecoverWrappedKey(aes: Aes, masterKey: Block, components: seq<nat>, filler: seq<byte>)
    requires Inverts(aes) && |components| == 4
    requires forall i | 0 <= i < 4 :: Extensions.BitLength(components[i]) < 65536
    requires |EncodeAll(components) + filler| % 16 == 0
    ensures RecoverComponents(aes, Blockwise(Encryptor(aes, masterKey), EncodeAll(components) + filler), masterKey)
         == Some(components)
  {
    var plain := EncodeAll(components) + filler;
    var wrapped := Blockwise(Encryptor(aes, masterKey), plain);
    assert PadToBlocks(wrapped) == wrapped + Zeros(16);
    BlockwiseAppend(Decryptor(aes, masterKey), wrapped, Zeros(16));
    KeyWrapRoundTrip(aes, masterKey, plain);
    var garbage := Blockwise(Decryptor(aes, masterKey), Zeros(16));
    assert EncodeAll(components) + filler + garbage == EncodeAll(components) + (filler + garbage);
    PeelEncoded(components, filler + garbage);
  }

  function Power(b: nat, e: nat): nat
  {
    if e == 0 then 1 else b * Power(b, e - 1)
  }

  /**
   * RsaDecrypt: data^d mod (p * q), computed directly against the product (no CRT), rendered
   * as its minimal big-endian bytes. A zero modulus has no remainder and is an error.
   */
  function RsaDecrypt(data: nat, p: nat, q: nat, d: nat): (r: Result<seq<byte>, CryptoError>)
    ensures r.Success? <==> p * q > 0
  {
    var n := p * q;
    if n == 0 then Failure(ZeroModulus) else Success(MinimalBigEndian(Power(data, d) % n))
  }

  /** The bytes RsaDecrypt returns are the minimal big-endian form of data^d mod (p * q). */
  lemma RsaDecryptValue(data: nat, p: nat, q: nat, d: nat)
    requires p * q > 0
    ensures FromBigEndian(RsaDecrypt(data, p, q, d).value) == Power(data, d) % (p * q)
    ensures RsaDecrypt(data, p, q, d).value == [] || RsaDecrypt(data, p, q, d).value[0] != 0
  {
    var n := p * q;
    FromMinimalBigEndian(Power(data, d) % n);
  }

  /** A toy key pair (p = 3, q = 11, e = 3, d = 7): the ciphertext 8 = 2^3 decrypts to 2. */
  lemma ToyKeyPair()
    ensures Power(2, 3) % 33 == 8
    ensures RsaDecrypt(8, 3, 11, 7) == Success([2 as byte])
  {
    assert Power(8, 7) == 2097152;
    assert Power(8, 7) % (3 * 11) == 2;
    assert RsaDecrypt(8, 3, 11, 7) == Success(MinimalBigEndian(2));
    assert MinimalBigEndian(0) == [];
    assert MinimalBigEndian(2) == MinimalBigEndian(0) + [2 as byte];
    assert MinimalBigEndian(2) == [2 as byte];
  }
}
