/** encryptStream and decryptStream: the container is the 32-byte salt, the
    24-byte base nonce, then one sealed chunk per non-empty read of the
    plaintext, chunk k sealed under the base nonce with its counter advanced
    by k. Each method is proved equal to a pure run of the same loop
    (Encrypted, Decrypted); the Properties module proves what those runs do. */
module Codec {
  import opened Bytes
  import opened Format
  import opened Nonce
  import opened Primitives
  import opened Streams

  datatype Error =
    | ReadFailed(code: nat)   // a read error other than io.EOF, returned as is
    | WriteFailed             // the sink refused a write, returned as is
    | EOF                     // io.ReadFull found no bytes at all
    | UnexpectedEOF           // io.ReadFull found some, but too few, bytes
    | BadPasswordOrCorrupt    // "bad password or corrupt data": an Open failed

  datatype Outcome = Done | Fail(error: Error)

  datatype Result<T> = Ok(value: T) | Err(error: Error)

  /** What a call returns, the writes the sink holds afterwards, and the reads left unread. */
  datatype Run = Run(outcome: Outcome, writes: seq<seq<byte>>, unread: seq<ReadResult>)

  /** The io.ReadFull loop (io.ReadAtLeast with min = need), having got `got` so far. */
  function FullReadFrom(pending: seq<ReadResult>, need: nat, got: seq<byte>): (res: (Result<seq<byte>>, seq<ReadResult>))
    requires |got| < need
    ensures res.0.Ok? ==> |res.0.value| == need
    decreases Weight(pending)
  {
    var (r, rest) := NextRead(pending, need - |got|);
    var got' := got + r.data;
    if |got'| >= need then (Ok(got'), rest)
    else match r.status
      case More => FullReadFrom(rest, need, got')
      case AtEOF => (Err(if |got'| == 0 then EOF else UnexpectedEOF), rest)
      case Failed(e) => (Err(ReadFailed(e)), rest)
  }

  /** io.ReadFull into a buffer of need bytes. */
  function FullRead(pending: seq<ReadResult>, need: nat): (res: (Result<seq<byte>>, seq<ReadResult>))
    requires need > 0
    ensures res.0.Ok? ==> |res.0.value| == need
  {
    FullReadFrom(pending, need, [])
  }

  /** The rest of encryptStream's chunk loop, from chunk k with `out` written so far. */
  function SealLoop(c: Suite, key: seq<byte>, base: seq<byte>, k: nat,
                    pending: seq<ReadResult>, out: seq<seq<byte>>, refuses: set<nat>): (run: Run)
    requires |base| == NonceSize
    decreases Weight(pending)
  {
    var (r, rest) := NextRead(pending, ChunkSize);
    if |r.data| > 0 && |out| in refuses then Run(Fail(WriteFailed), out, rest)
    else
      var out' := if |r.data| > 0 then out + [c.seal(key, NonceAt(base, k), r.data)] else out;
      var k' := if |r.data| > 0 then k + 1 else k;
      match r.status
      case More => SealLoop(c, key, base, k', rest, out', refuses)
      case AtEOF => Run(Done, out', rest)
      case Failed(e) => Run(Fail(ReadFailed(e)), out', rest)
  }

  /** A whole encryptStream call, salt and base nonce being the random draws. */
  function Encrypted(c: Suite, password: seq<byte>, salt: seq<byte>, nonce: seq<byte>,
                     script: seq<ReadResult>, out: seq<seq<byte>>, refuses: set<nat>): (run: Run)
    requires c.Sound() && |nonce| == NonceSize
  {
    if |out| in refuses then Run(Fail(WriteFailed), out, script)
    else if |out| + 1 in refuses then Run(Fail(WriteFailed), out + [salt], script)
    else SealLoop(c, DeriveKey(c, password, salt), nonce, 0, script, out + [salt, nonce], refuses)
  }

  /** The rest of decryptStream's chunk loop, from chunk k with `out` written so far. */
  function OpenLoop(c: Suite, key: seq<byte>, base: seq<byte>, k: nat,
                    pending: seq<ReadResult>, out: seq<seq<byte>>, refuses: set<nat>): (run: Run)
    requires |base| == NonceSize
    decreases Weight(pending)
  {
    var (r, rest) := NextRead(pending, EncChunkSize);
    var plain := c.open(key, NonceAt(base, k), r.data);
    if |r.data| > 0 && plain.None? then Run(Fail(BadPasswordOrCorrupt), out, rest)
    else if |r.data| > 0 && |out| in refuses then Run(Fail(WriteFailed), out, rest)
    else
      var out' := if |r.data| > 0 then out + [plain.value] else out;
      var k' := if |r.data| > 0 then k + 1 else k;
      match r.status
      case More => OpenLoop(c, key, base, k', rest, out', refuses)
      case AtEOF => Run(Done, out', rest)
      case Failed(e) => Run(Fail(ReadFailed(e)), out', rest)
  }

  /** A whole decryptStream call. */
  function Decrypted(c: Suite, password: seq<byte>, script: seq<ReadResult>,
                     out: seq<seq<byte>>, refuses: set<nat>): (run: Run)
    requires c.Sound()
  {
    var salt := FullRead(script, SaltSize);
    if salt.0.Err? then Run(Fail(salt.0.error), out, salt.1)
    else
      var nonce := FullRead(salt.1, NonceSize);
      if nonce.0.Err? then Run(Fail(nonce.0.error), out, nonce.1)
      else OpenLoop(c, DeriveKey(c, password, salt.0.value), nonce.0.value, 0, nonce.1, out, refuses)
  }

  /** io.ReadFull(in, buf) */
  method ReadFull(src: Source, buf: array<byte>) returns (r: Outcome)
    requires buf.Length > 0
    modifies src, buf
    ensures src.pending == FullRead(old(src.pending), buf.Length).1
    ensures r == Done <==> FullRead(old(src.pending), buf.Length).0.Ok?
    ensures r == Done ==> buf[..] == FullRead(old(src.pending), buf.Length).0.value
    ensures r.Fail? ==> r.error == FullRead(old(src.pending), buf.Length).0.error
  {
    var n := 0;
    ghost var got: seq<byte> := [];
    while true
      invariant 0 <= n < buf.Length && |got| == n
      invariant buf[..n] == got
      invariant FullReadFrom(src.pending, buf.Length, got) == FullRead(old(src.pending), buf.Length)
      decreases Weight(src.pending)
    {
      ghost var step := NextRead(src.pending, buf.Length - n);
      var nn, status := src.Read(buf, n);
      assert buf[..n + nn] == got + step.0.data by {
        assert buf[..n] == got && buf[n..n + nn] == step.0.data;
      }
      got := got + step.0.data;
      n := n + nn;
      if n >= buf.Length {
        assert buf[..] == got;
        return Done;
      }
      match status
      case More =>
      case AtEOF => return Fail(if n == 0 then EOF else UnexpectedEOF);
      case Failed(e) => return Fail(ReadFailed(e));
    }
  }

  /** encryptStream(in, out, password); salt and nonce are what crypto/rand returned. */
  method EncryptStream(c: Suite, password: seq<byte>, salt: seq<byte>, nonce: seq<byte>, src: Source, dst: Sink)
      returns (r: Outcome)
    requires c.Sound() && |salt| == SaltSize && |nonce| == NonceSize
    modifies src, dst
    ensures var run := Encrypted(c, password, salt, nonce, old(src.pending), old(dst.writes), dst.refuses);
            r == run.outcome && dst.writes == run.writes && src.pending == run.unread
  {
    var ok := dst.Write(salt);
    if !ok {
      return Fail(WriteFailed);
    }
    ok := dst.Write(nonce);
    if !ok {
      return Fail(WriteFailed);
    }
    assert dst.writes == old(dst.writes) + [salt, nonce];
    var key := DeriveKey(c, password, salt);
    r := EncryptChunks(c, key, nonce, src, dst);
  }

  /** The chunk loop of encryptStream: seal each non-empty read of at most
      ChunkSize bytes under the current chunk nonce, write it, then increment
      the nonce; stop at end of input or at the first error. */
  method EncryptChunks(c: Suite, key: seq<byte>, nonce: seq<byte>, src: Source, dst: Sink) returns (r: Outcome)
    requires |nonce| == NonceSize
    modifies src, dst
    ensures var run := SealLoop(c, key, nonce, 0, old(src.pending), old(dst.writes), dst.refuses);
            r == run.outcome && dst.writes == run.writes && src.pending == run.unread
  {
    var buf := new byte[ChunkSize];
    var chunkNonce := new byte[NonceSize];
    forall i | 0 <= i < NonceSize {
      chunkNonce[i] := nonce[i];
    }
    assert chunkNonce[..] == nonce;
    NonceAtZero(nonce);
    ghost var total := SealLoop(c, key, nonce, 0, src.pending, dst.writes, dst.refuses);
    ghost var k: nat := 0;
    while true
      invariant chunkNonce[..] == NonceAt(nonce, k)
      invariant |dst.writes| == |old(dst.writes)| + k
      invariant SealLoop(c, key, nonce, k, src.pending, dst.writes, dst.refuses) == total
      decreases Weight(src.pending)
    {
      ghost var step := NextRead(src.pending, ChunkSize);
      ghost var run := SealLoop(c, key, nonce, k, src.pending, dst.writes, dst.refuses);
      var n, status := src.Read(buf, 0);
      assert buf[..n] == step.0.data;
      if n > 0 {
        var ciphertext := c.seal(key, chunkNonce[..], buf[..n]);
        var ok := dst.Write(ciphertext);
        if !ok {
          assert run == Run(Fail(WriteFailed), dst.writes, src.pending);
          return Fail(WriteFailed);
        }
        IncrementNonce(chunkNonce);
        NonceAtNext(nonce, k);
        k := k + 1;
      }
      match status
      case More =>
        assert run == SealLoop(c, key, nonce, k, src.pending, dst.writes, dst.refuses);
      case AtEOF =>
        assert run == Run(Done, dst.writes, src.pending);
        return Done;
      case Failed(e) =>
        assert run == Run(Fail(ReadFailed(e)), dst.writes, src.pending);
        return Fail(ReadFailed(e));
    }
  }

  /** decryptStream(in, out, password) */
  method DecryptStream(c: Suite, password: seq<byte>, src: Source, dst: Sink) returns (r: Outcome)
    requires c.Sound()
    modifies src, dst
    ensures var run := Decrypted(c, password, old(src.pending), old(dst.writes), dst.refuses);
            r == run.outcome && dst.writes == run.writes && src.pending == run.unread
  {
    var salt := new byte[SaltSize];
    r := ReadFull(src, salt);
    if r.Fail? {
      return;
    }
    ghost var afterSalt := src.pending;
    var nonce := new byte[NonceSize];
    r := ReadFull(src, nonce);
    if r.Fail? {
      return;
    }
    var key := DeriveKey(c, password, salt[..]);
    assert FullRead(old(src.pending), SaltSize).0 == Ok(salt[..]);
    assert FullRead(afterSalt, NonceSize).0 == Ok(nonce[..]);
    r := DecryptChunks(c, key, nonce[..], src, dst);
  }

  /** The chunk loop of decryptStream: open each non-empty read of at most
      ChunkSize + Overhead bytes under the current chunk nonce, write the
      plaintext, then increment the nonce; stop at end of input, at the first
      error, or with the fixed authentication error at the first chunk that
      does not open. */
  method DecryptChunks(c: Suite, key: seq<byte>, nonce: seq<byte>, src: Source, dst: Sink) returns (r: Outcome)
    requires |nonce| == NonceSize
    modifies src, dst
    ensures var run := OpenLoop(c, key, nonce, 0, old(src.pending), old(dst.writes), dst.refuses);
            r == run.outcome && dst.writes == run.writes && src.pending == run.unread
  {
    var buf := new byte[EncChunkSize];
    var chunkNonce := new byte[NonceSize];
    forall i | 0 <= i < NonceSize {
      chunkNonce[i] := nonce[i];
    }
    assert chunkNonce[..] == nonce;
    NonceAtZero(nonce);
    ghost var total := OpenLoop(c, key, nonce, 0, src.pending, dst.writes, dst.refuses);
    ghost var k: nat := 0;
    while true
      invariant chunkNonce[..] == NonceAt(nonce, k)
      invariant |dst.writes| == |old(dst.writes)| + k
      invariant OpenLoop(c, key, nonce, k, src.pending, dst.writes, dst.refuses) == total
      decreases Weight(src.pending)
    {
      ghost var step := NextRead(src.pending, EncChunkSize);
      ghost var run := OpenLoop(c, key, nonce, k, src.pending, dst.writes, dst.refuses);
      ghost var k0, before, written := k, src.pending, dst.writes;
      var n, status := src.Read(buf, 0);
      assert buf[..n] == step.0.data;
      if n > 0 {
        var plaintext := c.open(key, chunkNonce[..], buf[..n]);
        if plaintext.None? {
          assert run == Run(Fail(BadPasswordOrCorrupt), dst.writes, src.pending);
          return Fail(BadPasswordOrCorrupt);
        }
        var ok := dst.Write(plaintext.value);
        if !ok {
          assert run == Run(Fail(WriteFailed), dst.writes, src.pending);
          return Fail(WriteFailed);
        }
        IncrementNonce(chunkNonce);
        NonceAtNext(nonce, k);
        assert chunkNonce[..] == NonceAt(nonce, k + 1);
        k := k + 1;
      }
      match status
      case More =>
        OpenLoopMore(c, key, nonce, k0, before, written, dst.refuses);
        assert src.pending == step.1;
        assert dst.writes == if n > 0 then written + [c.open(key, NonceAt(nonce, k0), step.0.data).value] else written;
      case AtEOF =>
        assert run == Run(Done, dst.writes, src.pending);
        return Done;
      case Failed(e) =>
        assert run == Run(Fail(ReadFailed(e)), dst.writes, src.pending);
        return Fail(ReadFailed(e));
    }
  }

  /** One turn of decryptStream's loop that neither fails nor ends: the rest of
      the loop runs from the next nonce on the reads left, with the plaintext
      of a non-empty read written. */
  lemma OpenLoopMore(c: Suite, key: seq<byte>, base: seq<byte>, k: nat,
                     pending: seq<ReadResult>, out: seq<seq<byte>>, refuses: set<nat>)
    requires |base| == NonceSize
    requires var r := NextRead(pending, EncChunkSize).0;
             r.status == More &&
             (|r.data| > 0 ==> c.open(key, NonceAt(base, k), r.data).Some? && |out| !in refuses)
    ensures var (r, rest) := NextRead(pending, EncChunkSize);
            var out' := if |r.data| > 0 then out + [c.open(key, NonceAt(base, k), r.data).value] else out;
            var k' := if |r.data| > 0 then k + 1 else k;
            OpenLoop(c, key, base, k, pending, out, refuses) == OpenLoop(c, key, base, k', rest, out', refuses)
  {
  }
}
