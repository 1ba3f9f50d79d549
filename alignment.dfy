/** Where the chunk boundaries come from.

    encryptStream seals whatever each in.Read returns, and decryptStream
    opens whatever each in.Read returns; nothing makes the two sets of
    boundaries agree. So the same ciphertext bytes decrypt or not depending
    on how the reader splits them (MisalignedReadsFail). With fixed-size
    chunks, each filled with io.ReadFull as the header already is, every
    way of splitting the ciphertext decrypts (FixedRoundTrip). */
module Alignment {
  import opened Bytes
  import opened Format
  import opened Nonce
  import opened Primitives
  import opened Streams
  import opened Codec
  import opened Properties

  // ---------------------------------------------------------------------
  // As written: the same bytes, read in one piece, do not decrypt.

  function Zeros(n: nat): (z: seq<byte>)
    ensures |z| == n
  {
    if n == 0 then [] else [0] + Zeros(n - 1)
  }

  /** The tag of a toy cipher suite: bytes 8..23 of the nonce, so chunks
      sealed under different counters carry different tags. */
  function ToyTag(nonce: seq<byte>): (t: seq<byte>)
    ensures |t| == Overhead
  {
    if |nonce| == NonceSize then nonce[8..] else Zeros(Overhead)
  }

  /** A cipher suite that is Sound but encrypts nothing: sealing appends the
      toy tag, and opening checks and strips it. */
  function ToySuite(): Suite
  {
    Suite((password, salt, t, m, p, len) => Zeros(KeySize),
          (key, nonce, pt) => pt + ToyTag(nonce),
          (key, nonce, ct) =>
            if |ct| >= Overhead && ct[|ct| - Overhead..] == ToyTag(nonce)
            then Some(ct[..|ct| - Overhead]) else None)
  }

  /** The toy suite meets every assumption the codec makes. */
  lemma ToySuiteSound()
    ensures ToySuite().Sound()
  {
    var c := ToySuite();
    forall key, nonce, pt
      ensures c.open(key, nonce, c.seal(key, nonce, pt)) == Some(pt)
    {
      var ct := pt + ToyTag(nonce);
      assert ct[|ct| - Overhead..] == ToyTag(nonce);
      assert ct[..|ct| - Overhead] == pt;
    }
  }

  /** Chunks 0 and 1 carry different toy tags: their nonces differ, and only
      in the counter, which lies inside the tag. */
  lemma ToyTagsDiffer(nonce: seq<byte>)
    requires |nonce| == NonceSize
    ensures ToyTag(NonceAt(nonce, 0)) != ToyTag(NonceAt(nonce, 1))
  {
    NoncesDistinct(nonce, 0, 1);
    var n0, n1 := NonceAt(nonce, 0), NonceAt(nonce, 1);
    WithCounterParts(nonce, (Counter(nonce) + 0) % Two64);
    WithCounterParts(nonce, (Counter(nonce) + 1) % Two64);
    assert n0[..8] == nonce[..8] == n1[..8];
    assert n0 == n0[..8] + n0[8..];
    assert n1 == n1[..8] + n1[8..];
  }

  /** With the toy suite, two one-byte reads are written as the header and two
      chunks of 17 bytes, tagged for chunks 0 and 1. */
  lemma ToyEncryptTwo(salt: seq<byte>, nonce: seq<byte>)
    requires |salt| == SaltSize && |nonce| == NonceSize
    ensures var enc := Encrypted(ToySuite(), [], salt, nonce,
                                 [ReadResult([1], More), ReadResult([2], More)], [], {});
            enc.writes == [salt, nonce, [1] + ToyTag(NonceAt(nonce, 0)), [2] + ToyTag(NonceAt(nonce, 1))]
  {
    var c := ToySuite();
    ToySuiteSound();
    var cs: seq<seq<byte>> := [[1], [2]];
    var script := [ReadResult([1], More), ReadResult([2], More)];
    assert script == AsReads(cs);
    ChunksOfAligned(cs, ChunkSize);
    EncryptShape(c, [], salt, nonce, script);
    SealedNonces(c, DeriveKey(c, [], salt), nonce, 0, cs);
  }

  /** A single Read holding the header and some ciphertext: decryptStream
      splits the header off and hands the rest, still as one Read, to its loop. */
  lemma OneReadHeader(c: Suite, password: seq<byte>, salt: seq<byte>, nonce: seq<byte>, ct: seq<byte>)
    requires c.Sound() && |salt| == SaltSize && |nonce| == NonceSize && ct != []
    ensures Decrypted(c, password, [ReadResult(salt + nonce + ct, More)], [], {})
         == OpenLoop(c, DeriveKey(c, password, salt), nonce, 0, [ReadResult(ct, More)], [], {})
  {
    var all := salt + nonce + ct;
    var afterSalt := [ReadResult(nonce + ct, More)];
    AppendAssoc(salt, nonce, ct);
    SplitAt(salt, nonce + ct);
    SplitAt(nonce, ct);
    var first := [ReadResult(all, More)];
    assert first[1..] == [] && |first[0].data| > SaltSize;
    assert NextRead(first, SaltSize).1 == [ReadResult(all[SaltSize..], More)] + [];
    assert NextRead(first, SaltSize).0 == ReadResult(all[..SaltSize], More);
    assert [ReadResult(all[SaltSize..], More)] + [] == afterSalt;
    assert NextRead(first, SaltSize) == (ReadResult(salt, More), afterSalt);
    assert [] + salt == salt;
    assert FullRead([ReadResult(all, More)], SaltSize) == (Ok(salt), afterSalt);
    assert afterSalt[1..] == [] && |afterSalt[0].data| > NonceSize;
    assert NextRead(afterSalt, NonceSize).1 == [ReadResult(ct, More)] + [];
    assert NextRead(afterSalt, NonceSize).0 == ReadResult((nonce + ct)[..NonceSize], More);
    assert [ReadResult(ct, More)] + [] == [ReadResult(ct, More)];
    assert NextRead(afterSalt, NonceSize) == (ReadResult(nonce, More), [ReadResult(ct, More)]);
    assert [] + nonce == nonce;
    assert FullRead(afterSalt, NonceSize) == (Ok(nonce), [ReadResult(ct, More)]);
  }

  /** Two one-byte reads, encrypted with the toy suite under any salt and
      nonce: decrypting the output read write by write gives both bytes back,
      but the very same 90 bytes delivered by a single Read fail with "bad
      password or corrupt data", because decryptStream opens both chunks
      together as one. */
  lemma MisalignedReadsFail(salt: seq<byte>, nonce: seq<byte>)
    requires |salt| == SaltSize && |nonce| == NonceSize
    ensures var enc := Encrypted(ToySuite(), [], salt, nonce,
                                 [ReadResult([1], More), ReadResult([2], More)], [], {});
            enc.outcome == Done &&
            Decrypted(ToySuite(), [], AsReads(enc.writes), [], {}).writes == [[1], [2]] &&
            Decrypted(ToySuite(), [], [ReadResult(Concat(enc.writes), More)], [], {}).outcome
              == Fail(BadPasswordOrCorrupt)
  {
    var c := ToySuite();
    ToySuiteSound();
    var script := [ReadResult([1], More), ReadResult([2], More)];
    var cs: seq<seq<byte>> := [[1], [2]];
    assert script == AsReads(cs);
    ChunksOfAligned(cs, ChunkSize);
    RoundTrip(c, [], salt, nonce, script);
    ToyEncryptTwo(salt, nonce);
    var s0, s1 := [1] + ToyTag(NonceAt(nonce, 0)), [2] + ToyTag(NonceAt(nonce, 1));
    ConcatFour(salt, nonce, s0, s1);
    var ct := s0 + s1;
    OneReadHeader(c, [], salt, nonce, ct);
    ToyOpenJoined(DeriveKey(c, [], salt), nonce);
    assert NextRead([ReadResult(ct, More)], EncChunkSize) == (ReadResult(ct, More), []);
  }

  lemma ConcatFour(a: seq<byte>, b: seq<byte>, c: seq<byte>, d: seq<byte>)
    ensures Concat([a, b, c, d]) == a + b + (c + d)
  {
    assert [a, b, c, d][1..] == [b, c, d];
    assert [b, c, d][1..] == [c, d];
    assert [c, d][1..] == [d];
    assert [d][1..] == [];
    assert Concat([d]) == d;
    assert Concat([c, d]) == c + d;
    assert Concat([b, c, d]) == b + (c + d);
  }

  /** The two toy chunks, opened together as one under the nonce of chunk 0
      and any key, do not open: the trailing tag is the one of chunk 1. */
  lemma ToyOpenJoined(key: seq<byte>, nonce: seq<byte>)
    requires |nonce| == NonceSize
    ensures var ct := ([1] + ToyTag(NonceAt(nonce, 0))) + ([2] + ToyTag(NonceAt(nonce, 1)));
            ToySuite().open(key, NonceAt(nonce, 0), ct) == None
  {
    var t0, t1 := ToyTag(NonceAt(nonce, 0)), ToyTag(NonceAt(nonce, 1));
    var head := [1] + t0 + [2];
    assert ([1] + t0) + ([2] + t1) == head + t1;
    SplitAt(head, t1);
    ToyTagsDiffer(nonce);
  }

  // ---------------------------------------------------------------------
  // Corrected: fixed-size chunks, each filled with io.ReadFull.

  /** io.ReadFull into a buffer of need bytes, keeping what arrived: the
      bytes, More when the buffer filled, AtEOF when the input ended first
      (io.EOF or io.ErrUnexpectedEOF), or the read error. */
  function Fill(pending: seq<ReadResult>, need: nat, got: seq<byte>): (res: (seq<byte>, Status, seq<ReadResult>))
    requires |got| < need
    ensures |res.0| <= need
    ensures res.1.More? ==> |res.0| == need
    ensures Weight(res.2) <= Weight(pending)
    ensures res.1.More? ==> Weight(res.2) < Weight(pending)
    decreases Weight(pending)
  {
    var (r, rest) := NextRead(pending, need - |got|);
    var got' := got + r.data;
    if |got'| >= need then (got', More, rest)
    else match r.status
      case More => Fill(rest, need, got')
      case AtEOF => (got', AtEOF, rest)
      case Failed(e) => (got', Failed(e), rest)
  }

  /** The corrected encryption loop: seal each filled chunk of ChunkSize bytes,
      and the shorter last one, under the nonce of its index. */
  function FixedSealLoop(c: Suite, key: seq<byte>, base: seq<byte>, k: nat,
                         pending: seq<ReadResult>, out: seq<seq<byte>>): (run: Run)
    requires |base| == NonceSize
    decreases Weight(pending)
  {
    var (d, status, rest) := Fill(pending, ChunkSize, []);
    var out' := if |d| > 0 then out + [c.seal(key, NonceAt(base, k), d)] else out;
    match status
    case More => FixedSealLoop(c, key, base, k + 1, rest, out')
    case AtEOF => Run(Done, out', rest)
    case Failed(e) => Run(Fail(ReadFailed(e)), out', rest)
  }

  /** The corrected encryptStream, with every write accepted. */
  function FixedEncrypted(c: Suite, password: seq<byte>, salt: seq<byte>, nonce: seq<byte>,
                          script: seq<ReadResult>): (run: Run)
    requires c.Sound() && |nonce| == NonceSize
  {
    FixedSealLoop(c, DeriveKey(c, password, salt), nonce, 0, script, [salt, nonce])
  }

  /** The corrected decryption loop: open each filled chunk of
      ChunkSize + Overhead bytes, and the shorter last one. */
  function FixedOpenLoop(c: Suite, key: seq<byte>, base: seq<byte>, k: nat,
                         pending: seq<ReadResult>, out: seq<seq<byte>>): (run: Run)
    requires |base| == NonceSize
    decreases Weight(pending)
  {
    var (d, status, rest) := Fill(pending, EncChunkSize, []);
    var plain := c.open(key, NonceAt(base, k), d);
    if |d| > 0 && plain.None? then Run(Fail(BadPasswordOrCorrupt), out, rest)
    else
      var out' := if |d| > 0 then out + [plain.value] else out;
      match status
      case More => FixedOpenLoop(c, key, base, k + 1, rest, out')
      case AtEOF => Run(Done, out', rest)
      case Failed(e) => Run(Fail(ReadFailed(e)), out', rest)
  }

  /** The corrected decryptStream, with every write accepted: the header as
      decryptStream reads it, then the corrected loop. */
  function FixedDecrypted(c: Suite, password: seq<byte>, script: seq<ReadResult>): (run: Run)
    requires c.Sound()
  {
    var salt := FullRead(script, SaltSize);
    if salt.0.Err? then Run(Fail(salt.0.error), [], salt.1)
    else
      var nonce := FullRead(salt.1, NonceSize);
      if nonce.0.Err? then Run(Fail(nonce.0.error), [], nonce.1)
      else FixedOpenLoop(c, DeriveKey(c, password, salt.0.value), nonce.0.value, 0, nonce.1, [])
  }

  /** The corrected encryption loop only appends, and returns nil or the read error. */
  lemma {:induction false} FixedSealLoopKeeps(c: Suite, key: seq<byte>, base: seq<byte>, k: nat,
                                              pending: seq<ReadResult>, out: seq<seq<byte>>)
    requires |base| == NonceSize
    ensures out <= FixedSealLoop(c, key, base, k, pending, out).writes
    ensures var o := FixedSealLoop(c, key, base, k, pending, out).outcome;
            o == Done || o.error.ReadFailed?
    decreases Weight(pending)
  {
    var (d, status, rest) := Fill(pending, ChunkSize, []);
    if status.More? {
      var out' := if |d| > 0 then out + [c.seal(key, NonceAt(base, k), d)] else out;
      assert FixedSealLoop(c, key, base, k, pending, out) == FixedSealLoop(c, key, base, k + 1, rest, out');
      FixedSealLoopKeeps(c, key, base, k + 1, rest, out');
      assert out <= out';
    }
  }

  /** The corrected decryption loop only appends, and returns nil, "bad
      password or corrupt data" or the read error. */
  lemma {:induction false} FixedOpenLoopKeeps(c: Suite, key: seq<byte>, base: seq<byte>, k: nat,
                                              pending: seq<ReadResult>, out: seq<seq<byte>>)
    requires |base| == NonceSize
    ensures out <= FixedOpenLoop(c, key, base, k, pending, out).writes
    ensures var o := FixedOpenLoop(c, key, base, k, pending, out).outcome;
            o == Done || o == Fail(BadPasswordOrCorrupt) || o.error.ReadFailed?
    decreases Weight(pending)
  {
    var (d, status, rest) := Fill(pending, EncChunkSize, []);
    var plain := c.open(key, NonceAt(base, k), d);
    if !(|d| > 0 && plain.None?) && status.More? {
      var out' := if |d| > 0 then out + [plain.value] else out;
      assert FixedOpenLoop(c, key, base, k, pending, out) == FixedOpenLoop(c, key, base, k + 1, rest, out');
      FixedOpenLoopKeeps(c, key, base, k + 1, rest, out');
      assert out <= out';
    }
  }

  /** The corrected encryptStream writes the salt then the nonce first, and
      returns nil or the read error. */
  lemma FixedEncryptedKeeps(c: Suite, password: seq<byte>, salt: seq<byte>, nonce: seq<byte>,
                            script: seq<ReadResult>)
    requires c.Sound() && |nonce| == NonceSize
    ensures var run := FixedEncrypted(c, password, salt, nonce, script);
            [salt, nonce] <= run.writes && (run.outcome == Done || run.outcome.error.ReadFailed?)
  {
    FixedSealLoopKeeps(c, DeriveKey(c, password, salt), nonce, 0, script, [salt, nonce]);
  }

  /** The corrected decryptStream writes nothing when the header is cut short. */
  lemma FixedDecryptedKeeps(c: Suite, password: seq<byte>, script: seq<ReadResult>)
    requires c.Sound()
    ensures var run := FixedDecrypted(c, password, script);
            run.outcome.Fail? && (run.outcome.error.EOF? || run.outcome.error.UnexpectedEOF?) ==> run.writes == []
  {
    var salt := FullRead(script, SaltSize);
    if salt.0.Ok? {
      var nonce := FullRead(salt.1, NonceSize);
      if nonce.0.Ok? {
        FixedOpenLoopKeeps(c, DeriveKey(c, password, salt.0.value), nonce.0.value, 0, nonce.1, []);
      }
    }
  }

  /** bytes cut into chunks of n bytes, the last one possibly shorter. */
  function Blocks(bytes: seq<byte>, n: nat): seq<seq<byte>>
    requires n > 0
    decreases |bytes|
  {
    if bytes == [] then []
    else if |bytes| <= n then [bytes]
    else [bytes[..n]] + Blocks(bytes[n..], n)
  }

  /** Chunks of exactly n bytes, but the last, which has between 1 and n. */
  ghost predicate Framed(bs: seq<seq<byte>>, n: nat)
  {
    forall i :: 0 <= i < |bs| ==> 0 < |bs[i]| <= n && (i < |bs| - 1 ==> |bs[i]| == n)
  }

  /** Cutting into blocks loses no byte, and frames the bytes. */
  lemma {:induction false} BlocksFrame(bytes: seq<byte>, n: nat)
    requires n > 0
    ensures Framed(Blocks(bytes, n), n)
    ensures Concat(Blocks(bytes, n)) == bytes
    decreases |bytes|
  {
    if |bytes| > n {
      var tail := Blocks(bytes[n..], n);
      BlocksFrame(bytes[n..], n);
      ConcatAppend([bytes[..n]], tail);
      assert Concat([bytes[..n]]) == bytes[..n] + Concat([]);
      assert bytes[..n] + bytes[n..] == bytes;
      var bs := Blocks(bytes, n);
      forall i | 0 <= i < |bs|
        ensures 0 < |bs[i]| <= n && (i < |bs| - 1 ==> |bs[i]| == n)
      {
        if i > 0 {
          assert bs[i] == tail[i - 1];
        }
      }
    } else if bytes != [] {
      assert Concat([bytes]) == bytes + Concat([]);
    }
  }

  /** Fill is io.ReadFull with what arrived kept: it fills the buffer exactly
      when FullReadFrom succeeds, then with the same bytes; an end of input
      that came first is io.EOF when nothing arrived and io.ErrUnexpectedEOF
      otherwise; a read error is passed on; and both leave the same reads. */
  lemma {:induction false} FillIsFullRead(pending: seq<ReadResult>, need: nat, got: seq<byte>)
    requires |got| < need
    ensures var (d, status, rest) := Fill(pending, need, got);
            var (res, rest') := FullReadFrom(pending, need, got);
            rest == rest' &&
            (res.Ok? <==> status.More?) &&
            (res.Ok? ==> res.value == d) &&
            (status.AtEOF? ==> res == Err(if |d| == 0 then EOF else UnexpectedEOF)) &&
            (status.Failed? ==> res == Err(ReadFailed(status.code)))
    decreases Weight(pending)
  {
    var (r, rest) := NextRead(pending, need - |got|);
    var got' := got + r.data;
    if |got'| < need && r.status.More? {
      FillIsFullRead(rest, need, got');
    }
  }

  /** io.ReadFull on reads that report no error, keeping what arrived: a full
      buffer of the next bytes while enough remain, otherwise all that is left
      and the end of input. */
  lemma {:induction false} FillNoErrors(pending: seq<ReadResult>, need: nat, got: seq<byte>)
    requires |got| < need && AllMore(pending)
    ensures var res := Fill(pending, need, got);
            var all := got + Flatten(pending);
            |all| >= need ==> res.0 == all[..need] && res.1 == More && Flatten(res.2) == all[need..] && AllMore(res.2)
    ensures var res := Fill(pending, need, got);
            var all := got + Flatten(pending);
            |all| < need ==> res.0 == all && res.1 == AtEOF && res.2 == []
    decreases Weight(pending)
  {
    var (r, rest) := NextRead(pending, need - |got|);
    NextReadKeepsBytes(pending, need - |got|);
    var all := got + Flatten(pending);
    assert all == (got + r.data) + Flatten(rest);
    if |got + r.data| < need && pending != [] {
      FillNoErrors(rest, need, got + r.data);
    }
  }

  /** With no read error, the corrected encryption loop seals the input cut
      into ChunkSize blocks, block i under the nonce of chunk k + i, and ends
      with Done. */
  lemma {:induction false} FixedSealLoopShape(c: Suite, key: seq<byte>, base: seq<byte>, k: nat,
                                              pending: seq<ReadResult>, out: seq<seq<byte>>)
    requires |base| == NonceSize && AllMore(pending)
    ensures FixedSealLoop(c, key, base, k, pending, out).writes
         == out + Sealed(c, key, base, k, Blocks(Flatten(pending), ChunkSize))
    ensures FixedSealLoop(c, key, base, k, pending, out).outcome == Done
    decreases Weight(pending)
  {
    var F := Flatten(pending);
    var (d, status, rest) := Fill(pending, ChunkSize, []);
    FillNoErrors(pending, ChunkSize, []);
    assert [] + F == F;
    var run := FixedSealLoop(c, key, base, k, pending, out);
    if |F| >= ChunkSize {
      assert d == F[..ChunkSize] && status == More;
      var s := c.seal(key, NonceAt(base, k), d);
      var tail := Blocks(F[ChunkSize..], ChunkSize);
      BlocksHead(F, ChunkSize);
      SealedCons(c, key, base, k, d, tail);
      var later := Sealed(c, key, base, k + 1, tail);
      assert run == FixedSealLoop(c, key, base, k + 1, rest, out + [s]);
      FixedSealLoopShape(c, key, base, k + 1, rest, out + [s]);
      AppendAssoc(out, [s], later);
    } else if F != [] {
      assert d == F && status == AtEOF;
      SealedCons(c, key, base, k, F, []);
      assert Blocks(F, ChunkSize) == [F] + [];
    } else {
      assert d == [] && status == AtEOF;
      assert run.writes == out;
    }
  }

  /** A first whole block, then the blocks of the rest. */
  lemma BlocksHead(bytes: seq<byte>, n: nat)
    requires 0 < n <= |bytes|
    ensures Blocks(bytes, n) == [bytes[..n]] + Blocks(bytes[n..], n)
  {
    if |bytes| == n {
      assert bytes[n..] == [] && bytes[..n] == bytes;
    }
  }

  lemma SealedCons(c: Suite, key: seq<byte>, base: seq<byte>, k: nat, x: seq<byte>, xs: seq<seq<byte>>)
    requires |base| == NonceSize
    ensures Sealed(c, key, base, k, [x] + xs) == [c.seal(key, NonceAt(base, k), x)] + Sealed(c, key, base, k + 1, xs)
  {
    assert ([x] + xs)[1..] == xs;
  }

  lemma SplitAt<T>(x: seq<T>, y: seq<T>)
    ensures (x + y)[..|x|] == x && (x + y)[|x|..] == y
  {
  }

  /** With no read error, the corrected decryption loop opens a framed
      sequence of sealed chunks, however its reads split the bytes, and
      writes every plaintext back. */
  lemma {:induction false} FixedOpenLoopShape(c: Suite, key: seq<byte>, base: seq<byte>, k: nat,
                                              pending: seq<ReadResult>, out: seq<seq<byte>>, bs: seq<seq<byte>>)
    requires c.Sound() && |base| == NonceSize && AllMore(pending)
    requires Framed(bs, ChunkSize) && Flatten(pending) == Concat(Sealed(c, key, base, k, bs))
    ensures FixedOpenLoop(c, key, base, k, pending, out).writes == out + bs
    ensures FixedOpenLoop(c, key, base, k, pending, out).outcome == Done
    decreases |bs|
  {
    if bs == [] {
      FixedOpenEmpty(c, key, base, k, pending, out);
    } else {
      var s0 := c.seal(key, NonceAt(base, k), bs[0]);
      var more := Concat(Sealed(c, key, base, k + 1, bs[1..]));
      SealedHead(c, key, base, k, bs);
      FixedOpenFirst(c, key, base, k, pending, out, s0, bs[0], more);
      if |s0| == EncChunkSize {
        var rest := Fill(pending, EncChunkSize, []).2;
        FixedOpenLoopShape(c, key, base, k + 1, rest, out + [bs[0]], bs[1..]);
        AppendAssoc(out, [bs[0]], bs[1..]);
      } else {
        assert bs == [bs[0]];
      }
      assert [bs[0]] + bs[1..] == bs;
    }
  }

  /** Reads without errors that deliver nothing end the corrected decryption loop with Done. */
  lemma FixedOpenEmpty(c: Suite, key: seq<byte>, base: seq<byte>, k: nat,
                       pending: seq<ReadResult>, out: seq<seq<byte>>)
    requires |base| == NonceSize && AllMore(pending) && Flatten(pending) == []
    ensures FixedOpenLoop(c, key, base, k, pending, out).writes == out
    ensures FixedOpenLoop(c, key, base, k, pending, out).outcome == Done
  {
    FillNoErrors(pending, EncChunkSize, []);
    assert [] + Flatten(pending) == [];
  }

  /** One step of the corrected decryption loop on reads without errors whose
      bytes start with a sealed chunk s0 that opens to p: a whole buffer hands
      the bytes after it to the next step, a shorter last chunk ends with Done. */
  lemma FixedOpenFirst(c: Suite, key: seq<byte>, base: seq<byte>, k: nat,
                       pending: seq<ReadResult>, out: seq<seq<byte>>,
                       s0: seq<byte>, p: seq<byte>, more: seq<byte>)
    requires |base| == NonceSize && AllMore(pending) && Flatten(pending) == s0 + more
    requires 0 < |s0| <= EncChunkSize && c.open(key, NonceAt(base, k), s0) == Some(p)
    requires |s0| < EncChunkSize ==> more == []
    ensures var rest := Fill(pending, EncChunkSize, []).2;
            |s0| == EncChunkSize ==>
              AllMore(rest) && Flatten(rest) == more &&
              FixedOpenLoop(c, key, base, k, pending, out) == FixedOpenLoop(c, key, base, k + 1, rest, out + [p])
    ensures |s0| < EncChunkSize ==>
              FixedOpenLoop(c, key, base, k, pending, out).writes == out + [p] &&
              FixedOpenLoop(c, key, base, k, pending, out).outcome == Done
  {
    var F := Flatten(pending);
    FillNoErrors(pending, EncChunkSize, []);
    assert [] + F == F;
    SplitAt(s0, more);
    if |s0| < EncChunkSize {
      assert F == s0;
    }
  }

  /** The first of a framed sequence of sealed chunks: it opens, and it is a
      whole buffer of ChunkSize + Overhead bytes unless it is the only one. */
  lemma SealedHead(c: Suite, key: seq<byte>, base: seq<byte>, k: nat, bs: seq<seq<byte>>)
    requires c.Sound() && |base| == NonceSize && Framed(bs, ChunkSize) && bs != []
    ensures var s0 := c.seal(key, NonceAt(base, k), bs[0]);
            Concat(Sealed(c, key, base, k, bs)) == s0 + Concat(Sealed(c, key, base, k + 1, bs[1..])) &&
            c.open(key, NonceAt(base, k), s0) == Some(bs[0]) &&
            Framed(bs[1..], ChunkSize) &&
            |s0| <= EncChunkSize &&
            (|bs| > 1 ==> |s0| == EncChunkSize) &&
            (|bs| == 1 ==> Concat(Sealed(c, key, base, k + 1, bs[1..])) == [])
  {
    var s0 := c.seal(key, NonceAt(base, k), bs[0]);
    var ss := Sealed(c, key, base, k + 1, bs[1..]);
    assert Sealed(c, key, base, k, bs) == [s0] + ss;
    ConcatAppend([s0], ss);
    assert Concat([s0]) == s0 + Concat([]);
    forall i | 0 <= i < |bs[1..]|
      ensures 0 < |bs[1..][i]| <= ChunkSize && (i < |bs[1..]| - 1 ==> |bs[1..][i]| == ChunkSize)
    {
      assert bs[1..][i] == bs[i + 1];
    }
  }

  /** The corrected round trip: however the decryption's reads split the
      bytes of a completed encryption, decrypting them with the same password
      succeeds and gives back every input byte in order. */
  lemma FixedRoundTrip(c: Suite, password: seq<byte>, salt: seq<byte>, nonce: seq<byte>,
                       script: seq<ReadResult>, dscript: seq<ReadResult>)
    requires c.Sound() && |salt| == SaltSize && |nonce| == NonceSize
    requires AllMore(script) && AllMore(dscript)
    requires Flatten(dscript) == Concat(FixedEncrypted(c, password, salt, nonce, script).writes)
    ensures FixedEncrypted(c, password, salt, nonce, script).outcome == Done
    ensures FixedDecrypted(c, password, dscript).outcome == Done
    ensures Concat(FixedDecrypted(c, password, dscript).writes) == Flatten(script)
  {
    var key := DeriveKey(c, password, salt);
    var bs := Blocks(Flatten(script), ChunkSize);
    var ss := Sealed(c, key, nonce, 0, bs);
    BlocksFrame(Flatten(script), ChunkSize);
    FixedSealLoopShape(c, key, nonce, 0, script, [salt, nonce]);
    ConcatHeader(salt, nonce, ss);
    FixedHeader(c, password, salt, nonce, Concat(ss), dscript);
    var body := FullRead(FullRead(dscript, SaltSize).1, NonceSize).1;
    FixedOpenLoopShape(c, key, nonce, 0, body, [], bs);
    assert [] + bs == bs;
  }

  lemma ConcatHeader(salt: seq<byte>, nonce: seq<byte>, ss: seq<seq<byte>>)
    ensures Concat([salt, nonce] + ss) == salt + nonce + Concat(ss)
  {
    ConcatAppend([salt, nonce], ss);
    assert [salt, nonce][1..] == [nonce];
    assert [nonce][1..] == [];
    assert Concat([nonce]) == nonce;
  }

  /** Reads without errors that deliver a header then a body: the corrected
      decryptStream takes salt and nonce from the header and hands the reads
      of the body to its loop. */
  lemma FixedHeader(c: Suite, password: seq<byte>, salt: seq<byte>, nonce: seq<byte>,
                    body: seq<byte>, dscript: seq<ReadResult>)
    requires c.Sound() && |salt| == SaltSize && |nonce| == NonceSize
    requires AllMore(dscript) && Flatten(dscript) == salt + nonce + body
    ensures var rest := FullRead(FullRead(dscript, SaltSize).1, NonceSize).1;
            AllMore(rest) && Flatten(rest) == body &&
            FixedDecrypted(c, password, dscript)
              == FixedOpenLoop(c, DeriveKey(c, password, salt), nonce, 0, rest, [])
  {
    var F := Flatten(dscript);
    FullReadFromNoErrors(dscript, SaltSize, []);
    assert [] + F == F;
    var afterSalt := FullRead(dscript, SaltSize).1;
    AppendAssoc(salt, nonce, body);
    SplitAt(salt, nonce + body);
    FullReadFromNoErrors(afterSalt, NonceSize, []);
    assert [] + Flatten(afterSalt) == Flatten(afterSalt);
    SplitAt(nonce, body);
  }
}
