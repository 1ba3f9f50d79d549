/** The cryptographic primitives main.go calls, kept abstract: Argon2id
    (RFC 9106) for key derivation and XChaCha20-Poly1305 (the extended-nonce
    variant of the ChaCha20-Poly1305 AEAD of RFC 8439) for sealing chunks.
    The codec is proved for every suite that satisfies Sound(). */
module Primitives {
  import opened Bytes
  import opened Format

  datatype Option<T> = None | Some(value: T)

  /** argon2.IDKey(password, salt, time, memory, threads, keyLen),
      aead.Seal(nil, nonce, plaintext, nil) and aead.Open(nil, nonce, ciphertext, nil),
      the AEAD being chacha20poly1305.NewX(key). No associated data is used. */
  datatype Suite = Suite(
    idKey: (seq<byte>, seq<byte>, nat, nat, nat, nat) -> seq<byte>,
    seal: (seq<byte>, seq<byte>, seq<byte>) -> seq<byte>,
    open: (seq<byte>, seq<byte>, seq<byte>) -> Option<seq<byte>>)
  {
    /** What the codec relies on: the derived key has the requested length,
        sealing appends a 16-byte tag (section 2.8 of RFC 8439), opening a sealed
        chunk under the same key and nonce gives the plaintext back, and a
        ciphertext shorter than the tag never opens. */
    ghost predicate Sound()
    {
      (forall password, salt :: |idKey(password, salt, ArgonTime, ArgonMemory, ArgonThreads, KeySize)| == KeySize) &&
      (forall key, nonce, pt :: |seal(key, nonce, pt)| == |pt| + Overhead) &&
      (forall key, nonce, pt :: open(key, nonce, seal(key, nonce, pt)) == Some(pt)) &&
      (forall key, nonce, ct :: |ct| < Overhead ==> open(key, nonce, ct) == None)
    }
  }

  /** The key both directions derive: Argon2id with t=1, m=64 MiB, p=4, 32 bytes. */
  function DeriveKey(c: Suite, password: seq<byte>, salt: seq<byte>): (key: seq<byte>)
    requires c.Sound()
    ensures |key| == KeySize
  {
    c.idKey(password, salt, ArgonTime, ArgonMemory, ArgonThreads, KeySize)
  }
}
