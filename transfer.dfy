/**
 * How the two stream classes are used together: an upload reads a whole plaintext stream through
 * MegaEncryptStream and disposes it to get the meta-MAC; a download reads a whole encrypted stream
 * through MegaDecryptStream and disposes it to check that meta-MAC. These clients use only the
 * contracts of the stream classes.
 */
module Transfer {
  import opened Bytes
  import opened Wrappers
  import opened StreamCipher
  import BlockCipher
  import ChunkPlan
  import Streams

  /**
   * Encrypts everything `source` holds in one ReadAsync call, then disposes the stream. The
   * ciphertext is the one-pass encryption of the file under the stream's cipher and the meta-MAC
   * is the file's.
   */
  method Upload(source: Streams.Source, fileKey: Block, ivKey: Block, aes: BlockCipher.Aes)
    returns (encrypted: seq<byte>, metaMac: seq<byte>, ghost c: Cipher)
    requires source.Valid() && source.pos == 0
    modifies source
    ensures c == MegaCipher(aes, fileKey, ivKey[..8], c.chunks) && ChunkPlan.IsPlan(|source.data|, c.chunks)
    ensures encrypted == WholeFile(c, Encrypt, source.data).output
    ensures metaMac == MetaMac(c, source.data)
  {
    var es := new Streams.EncryptStream(source, fileKey, ivKey, aes);
    var buffer := new byte[|source.data|];
    var n := es.ReadAsync(buffer, 0, |source.data|);
    assert source.data[..|source.data|] == source.data;
    encrypted := buffer[..];
    es.Dispose();
    metaMac := es.base.metaMac;
    c := es.base.cipher;
  }

  /**
   * Decrypts the first streamLength bytes of `source` in one ReadAsync call, then disposes the
   * stream. The plaintext is the one-pass decryption of those bytes, and Dispose fails exactly when
   * the expected meta-MAC is not the one that pass computes.
   */
  method Download(source: Streams.Source, streamLength: int, fileKey: Block, iv: Nonce, expectedMetaMac: seq<byte>, aes: BlockCipher.Aes)
    returns (plain: seq<byte>, r: Result<(), string>, ghost c: Cipher)
    requires source.Valid() && source.pos == 0 && 0 <= streamLength <= |source.data|
    requires streamLength <= Int32MaxValue as int
    modifies source
    ensures c == MegaCipher(aes, fileKey, iv, c.chunks) && ChunkPlan.IsPlan(streamLength, c.chunks)
    ensures plain == WholeFile(c, Decrypt, source.data[..streamLength]).output
    ensures r.Failure? <==> expectedMetaMac != Finish(c, WholeFile(c, Decrypt, source.data[..streamLength]).state)
  {
    var ds := new Streams.DecryptStream(source, streamLength, fileKey, iv, expectedMetaMac, aes);
    var buffer := new byte[streamLength];
    var n := ds.ReadAsync(buffer, 0, streamLength as int32);
    plain := buffer[..];
    r := ds.Dispose();
    c := ds.base.cipher;
  }

  /**
   * An upload followed by a download of its output with the same file key, the nonce taken from
   * the first 8 bytes of the upload's IV key and the upload's meta-MAC gives back the file, and the
   * meta-MAC check passes.
   */
  method RoundTrip(data: seq<byte>, fileKey: Block, ivKey: Block, aes: BlockCipher.Aes)
    returns (downloaded: seq<byte>, r: Result<(), string>)
    requires |data| <= Int32MaxValue as int
    ensures downloaded == data && r.Success?
  {
    var plainSource := new Streams.Source(data);
    var encrypted, metaMac, c1 := Upload(plainSource, fileKey, ivKey, aes);
    var encryptedSource := new Streams.Source(encrypted);
    ghost var c2;
    downloaded, r, c2 := Download(encryptedSource, |encrypted|, fileKey, ivKey[..8], metaMac, aes);
    assert encrypted[..|encrypted|] == encrypted;
    ChunkPlan.PlanUnique(|data|, c1.chunks, c2.chunks);
    FileRoundTrip(c1, data);
  }
}
