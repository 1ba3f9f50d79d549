/** Bytes, the format's constants, and the little-endian integer helpers that
    stand for Go's binary.LittleEndian.Uint64 / PutUint64. */
module Bytes {

  newtype byte = x: int | 0 <= x < 256

  /** 2^64: a Go uint64 wraps at this value. */
  const Two64: nat := 0x1_0000_0000_0000_0000

  function Pow256(n: nat): (r: nat)
    ensures r >= 1
  {
    if n == 0 then 1 else 256 * Pow256(n - 1)
  }

  lemma Pow256Eight()
    ensures Pow256(8) == Two64
  {
    assert Pow256(2) == 0x1_0000;
    assert Pow256(4) == 0x1_0000_0000 by { assert Pow256(3) == 256 * Pow256(2); }
    assert Pow256(6) == 0x1_0000_0000_0000 by { assert Pow256(5) == 256 * Pow256(4); }
    assert Pow256(8) == Two64 by { assert Pow256(7) == 256 * Pow256(6); }
  }

  /** The little-endian value of s: s[0] is the least significant byte. */
  function LeValue(s: seq<byte>): (v: nat)
    ensures v < Pow256(|s|)
  {
    if s == [] then 0 else s[0] as nat + 256 * LeValue(s[1..])
  }

  /** The n least significant base-256 digits of v, least significant first. */
  function LeBytes(v: nat, n: nat): (s: seq<byte>)
    ensures |s| == n
  {
    if n == 0 then [] else [(v % 256) as byte] + LeBytes(v / 256, n - 1)
  }

  /** Encoding a value that fits in n bytes and decoding it gives the value back. */
  lemma {:induction false} LeValueOfBytes(v: nat, n: nat)
    requires v < Pow256(n)
    ensures LeValue(LeBytes(v, n)) == v
  {
    if n > 0 {
      LeValueOfBytes(v / 256, n - 1);
      assert LeBytes(v, n)[1..] == LeBytes(v / 256, n - 1);
    }
  }

  /** Decoding n bytes and encoding the value into n bytes gives the bytes back. */
  lemma {:induction false} LeBytesOfValue(s: seq<byte>)
    ensures LeBytes(LeValue(s), |s|) == s
  {
    if s != [] {
      var v := LeValue(s);
      assert v % 256 == s[0] as nat && v / 256 == LeValue(s[1..]);
      LeBytesOfValue(s[1..]);
    }
  }

  /** Two byte strings of the same length with the same value are equal. */
  lemma LeValueInjective(a: seq<byte>, b: seq<byte>)
    requires |a| == |b| && LeValue(a) == LeValue(b)
    ensures a == b
  {
    LeBytesOfValue(a);
    LeBytesOfValue(b);
  }

  /** A string of n 0xFF bytes has the largest n-byte value. */
  lemma {:induction false} LeValueAllOnes(s: seq<byte>)
    requires forall i :: 0 <= i < |s| ==> s[i] == 0xFF
    ensures LeValue(s) == Pow256(|s|) - 1
  {
    if s != [] {
      LeValueAllOnes(s[1..]);
    }
  }

  /** Concatenation of a sequence of byte strings, in order. */
  function Concat(ws: seq<seq<byte>>): seq<byte>
  {
    if ws == [] then [] else ws[0] + Concat(ws[1..])
  }

  lemma {:induction false} ConcatAppend(a: seq<seq<byte>>, b: seq<seq<byte>>)
    ensures Concat(a + b) == Concat(a) + Concat(b)
  {
    if a == [] {
      assert a + b == b;
    } else {
      assert (a + b)[1..] == a[1..] + b;
      ConcatAppend(a[1..], b);
    }
  }
}

/** The constants of main.go and of the primitives it calls. */
module Format {
  const ChunkSize: nat := 64 * 1024
  const KeySize: nat := 32
  const SaltSize: nat := 32
  const NonceSize: nat := 24

  /** Poly1305 tag length: aead.Overhead() of XChaCha20-Poly1305. */
  const Overhead: nat := 16

  /** Bytes read per ciphertext chunk on decryption. */
  const EncChunkSize: nat := ChunkSize + Overhead

  /** Salt then base nonce. */
  const HeaderSize: nat := SaltSize + NonceSize

  /** The chunk counter occupies nonce bytes 16..23. */
  const CounterOffset: nat := 16

  /** Argon2id cost parameters: time 1, memory 64 MiB (in KiB), 4 lanes. */
  const ArgonTime: nat := 1
  const ArgonMemory: nat := 64 * 1024
  const ArgonThreads: nat := 4
}
