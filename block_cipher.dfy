/**
 * AES-128 as the library provides it. Crypto.EncryptAes and Crypto.DecryptAes run a fresh
 * CBC transform with a zero IV and no padding over one 16-byte block, which is exactly one
 * application of the block cipher; the cipher itself is left uninterpreted.
 */
module BlockCipher {
  import opened Bytes

  /** A block cipher: encrypt(key, block) and decrypt(key, block). */
  datatype Aes = Aes(encrypt: (Block, Block) -> Block, decrypt: (Block, Block) -> Block)

  /** The one fact assumed of AES: under the same key, decryption undoes encryption. */
  ghost predicate Inverts(aes: Aes)
  {
    forall key: Block, b: Block :: aes.decrypt(key, aes.encrypt(key, b)) == b
  }
}
