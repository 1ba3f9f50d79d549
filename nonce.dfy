/** The per-chunk nonce: a 24-byte XChaCha20 nonce whose bytes 16..23 hold a
    little-endian uint64 chunk counter, advanced in place by incrementNonce. */
module Nonce {
  import opened Bytes
  import opened Format

  /** binary.LittleEndian.Uint64(nonce[16:]). */
  function Counter(nonce: seq<byte>): (v: nat)
    requires |nonce| == NonceSize
    ensures v < Two64
  {
    Pow256Eight();
    LeValue(nonce[CounterOffset..])
  }

  /** nonce with its counter bytes overwritten by binary.LittleEndian.PutUint64(_, v). */
  function WithCounter(nonce: seq<byte>, v: nat): (r: seq<byte>)
    requires |nonce| == NonceSize && v < Two64
    ensures |r| == NonceSize
  {
    nonce[..CounterOffset] + LeBytes(v, 8)
  }

  /** Overwriting the counter keeps the first 16 bytes and makes the counter read back as v. */
  lemma WithCounterParts(nonce: seq<byte>, v: nat)
    requires |nonce| == NonceSize && v < Two64
    ensures WithCounter(nonce, v)[..CounterOffset] == nonce[..CounterOffset]
    ensures Counter(WithCounter(nonce, v)) == v
  {
    assert WithCounter(nonce, v)[CounterOffset..] == LeBytes(v, 8);
    Pow256Eight();
    LeValueOfBytes(v, 8);
  }

  /** A nonce is determined by its first 16 bytes and its counter. */
  lemma NonceExt(a: seq<byte>, b: seq<byte>)
    requires |a| == NonceSize && |b| == NonceSize
    requires a[..CounterOffset] == b[..CounterOffset] && Counter(a) == Counter(b)
    ensures a == b
  {
    LeValueInjective(a[CounterOffset..], b[CounterOffset..]);
    assert a == a[..CounterOffset] + a[CounterOffset..];
    assert b == b[..CounterOffset] + b[CounterOffset..];
  }

  /** The nonce incrementNonce leaves behind: counter + 1, wrapping at 2^64. */
  function Incremented(nonce: seq<byte>): (r: seq<byte>)
    requires |nonce| == NonceSize
    ensures |r| == NonceSize
  {
    WithCounter(nonce, (Counter(nonce) + 1) % Two64)
  }

  /** Incrementing changes only the counter bytes, and adds one modulo 2^64. */
  lemma IncrementedCounter(nonce: seq<byte>)
    requires |nonce| == NonceSize
    ensures |Incremented(nonce)| == NonceSize
    ensures Incremented(nonce)[..CounterOffset] == nonce[..CounterOffset]
    ensures Counter(Incremented(nonce)) == (Counter(nonce) + 1) % Two64
    ensures Counter(nonce) + 1 < Two64 ==> Counter(Incremented(nonce)) == Counter(nonce) + 1
  {
    WithCounterParts(nonce, (Counter(nonce) + 1) % Two64);
  }

  /** An all-0xFF counter wraps to all zero bytes, and nothing else changes. */
  lemma {:induction false} IncrementWraps(nonce: seq<byte>)
    requires |nonce| == NonceSize
    requires forall i :: CounterOffset <= i < NonceSize ==> nonce[i] == 0xFF
    ensures Incremented(nonce) == nonce[..CounterOffset] + [0, 0, 0, 0, 0, 0, 0, 0]
  {
    var ctr := nonce[CounterOffset..];
    LeValueAllOnes(ctr);
    Pow256Eight();
    assert Counter(nonce) + 1 == Two64;
    assert LeBytes(0, 8) == [0, 0, 0, 0, 0, 0, 0, 0];
  }

  lemma ModSucc(x: nat)
    ensures (x % Two64 + 1) % Two64 == (x + 1) % Two64
  {
  }

  lemma ModOnce(x: nat)
    requires x < 2 * Two64
    ensures x % Two64 == if x < Two64 then x else x - Two64
  {
  }

  /** The nonce of chunk k: base with its counter advanced by k, modulo 2^64. */
  function NonceAt(base: seq<byte>, k: nat): (r: seq<byte>)
    requires |base| == NonceSize
    ensures |r| == NonceSize
  {
    WithCounter(base, (Counter(base) + k) % Two64)
  }

  /** Chunk 0 uses the base nonce itself. */
  lemma NonceAtZero(base: seq<byte>)
    requires |base| == NonceSize
    ensures NonceAt(base, 0) == base
  {
    WithCounterParts(base, Counter(base) % Two64);
    NonceExt(NonceAt(base, 0), base);
  }

  /** Incrementing the nonce of chunk k gives the nonce of chunk k + 1. */
  lemma NonceAtNext(base: seq<byte>, k: nat)
    requires |base| == NonceSize
    ensures Incremented(NonceAt(base, k)) == NonceAt(base, k + 1)
  {
    var c, n := Counter(base), NonceAt(base, k);
    var next := (c + k + 1) % Two64;
    WithCounterParts(base, (c + k) % Two64);
    ModSucc(c + k);
    assert (Counter(n) + 1) % Two64 == next;
    assert Incremented(n) == n[..CounterOffset] + LeBytes(next, 8);
    assert NonceAt(base, k + 1) == base[..CounterOffset] + LeBytes(next, 8);
  }

  /** Fewer than 2^64 chunks never reuse a nonce. */
  lemma NoncesDistinct(base: seq<byte>, j: nat, k: nat)
    requires |base| == NonceSize
    requires j < k < Two64
    ensures NonceAt(base, j) != NonceAt(base, k)
  {
    var c := Counter(base);
    WithCounterParts(base, (c + j) % Two64);
    WithCounterParts(base, (c + k) % Two64);
    ModOnce(c + j);
    ModOnce(c + k);
  }

  /** The counter is not guarded against wrap-around: chunk k + 2^64 reuses chunk k's nonce. */
  lemma NoncesCycle(base: seq<byte>, k: nat)
    requires |base| == NonceSize
    ensures NonceAt(base, k + Two64) == NonceAt(base, k)
  {
    var c := Counter(base);
    assert (c + k + Two64) % Two64 == (c + k) % Two64;
  }

  /** incrementNonce: reads bytes 16..23 as a little-endian uint64, adds one with
      uint64 wrap-around and writes the value back in place. */
  method IncrementNonce(nonce: array<byte>)
    requires nonce.Length == NonceSize
    modifies nonce
    ensures nonce[..] == Incremented(old(nonce[..]))
    ensures nonce[..CounterOffset] == old(nonce[..CounterOffset])
    ensures Counter(nonce[..]) == (Counter(old(nonce[..])) + 1) % Two64
  {
    var val := Counter(nonce[..]);
    val := (val + 1) % Two64;
    var counter := LeBytes(val, 8);
    forall i | 0 <= i < 8 {
      nonce[CounterOffset + i] := counter[i];
    }
    assert nonce[..] == old(nonce[..])[..CounterOffset] + counter;
    IncrementedCounter(old(nonce[..]));
  }
}
