/** What encryptStream and decryptStream do, stated over the pure runs the
    methods of Codec are proved equal to: the container layout, one sealed
    chunk per non-empty read, the nonce of each chunk, the first failing
    chunk ending decryption, what a refused write leaves behind, and the
    round trip when decryption reads exactly the sealed chunks. */
module Properties {
  import opened Bytes
  import opened Format
  import opened Nonce
  import opened Primitives
  import opened Streams
  import opened Codec

  /** The data of each non-empty Read of a chunk loop whose buffer holds max
      bytes, in read order, up to the Read that reports end of input or an error. */
  function Chunks(pending: seq<ReadResult>, max: nat): (cs: seq<seq<byte>>)
    requires max > 0
    ensures forall i :: 0 <= i < |cs| ==> 0 < |cs[i]| <= max
    decreases Weight(pending)
  {
    var (r, rest) := NextRead(pending, max);
    var here := if |r.data| > 0 then [r.data] else [];
    if r.status.More? then here + Chunks(rest, max) else here
  }

  /** How a chunk loop ends when nothing cuts it short: Done at end of input,
      the read error as is otherwise. */
  function EndOutcome(pending: seq<ReadResult>, max: nat): (o: Outcome)
    requires max > 0
    ensures o == Done || (o.Fail? && o.error.ReadFailed?)
    decreases Weight(pending)
  {
    var (r, rest) := NextRead(pending, max);
    match r.status
    case More => EndOutcome(rest, max)
    case AtEOF => Done
    case Failed(e) => Fail(ReadFailed(e))
  }

  lemma AppendAssoc<T>(a: seq<T>, b: seq<T>, c: seq<T>)
    ensures (a + b) + c == a + (b + c)
  {
  }

  /** The sealed chunks, chunk i under the nonce of chunk k + i. */
  function Sealed(c: Suite, key: seq<byte>, base: seq<byte>, k: nat, cs: seq<seq<byte>>): (ss: seq<seq<byte>>)
    requires |base| == NonceSize
    ensures |ss| == |cs|
    decreases |cs|
  {
    if cs == [] then []
    else [c.seal(key, NonceAt(base, k), cs[0])] + Sealed(c, key, base, k + 1, cs[1..])
  }

  /** Chunk i is sealed under the nonce of chunk k + i. */
  lemma {:induction false} SealedNonces(c: Suite, key: seq<byte>, base: seq<byte>, k: nat, cs: seq<seq<byte>>)
    requires |base| == NonceSize
    ensures forall i :: 0 <= i < |cs| ==> Sealed(c, key, base, k, cs)[i] == c.seal(key, NonceAt(base, k + i), cs[i])
    decreases |cs|
  {
    if cs != [] {
      SealedNonces(c, key, base, k + 1, cs[1..]);
      forall i | 0 < i < |cs|
        ensures Sealed(c, key, base, k, cs)[i] == c.seal(key, NonceAt(base, k + i), cs[i])
      {
        assert Sealed(c, key, base, k, cs)[i] == Sealed(c, key, base, k + 1, cs[1..])[i - 1];
        assert cs[1..][i - 1] == cs[i];
      }
    }
  }

  /** Opening chunk after chunk, chunk i under the nonce of chunk k + i, up to
      the first one that does not open: the plaintexts of the chunks before it.
      Every chunk opened exactly when there are as many plaintexts as chunks. */
  function Opened(c: Suite, key: seq<byte>, base: seq<byte>, k: nat, cs: seq<seq<byte>>): (ps: seq<seq<byte>>)
    requires |base| == NonceSize
    ensures |ps| <= |cs|
    decreases |cs|
  {
    if cs == [] then []
    else match c.open(key, NonceAt(base, k), cs[0])
      case None => []
      case Some(p) => [p] + Opened(c, key, base, k + 1, cs[1..])
  }

  /** Plaintext i is what chunk i opens to under the nonce of chunk k + i, and
      opening stops at the first chunk that does not open. */
  lemma {:induction false} OpenedNonces(c: Suite, key: seq<byte>, base: seq<byte>, k: nat, cs: seq<seq<byte>>)
    requires |base| == NonceSize
    ensures var ps := Opened(c, key, base, k, cs);
            forall i :: 0 <= i < |ps| ==> c.open(key, NonceAt(base, k + i), cs[i]) == Some(ps[i])
    ensures var ps := Opened(c, key, base, k, cs);
            |ps| < |cs| ==> c.open(key, NonceAt(base, k + |ps|), cs[|ps|]) == None
  {
    var ps := Opened(c, key, base, k, cs);
    forall i | 0 <= i < |ps|
      ensures c.open(key, NonceAt(base, k + i), cs[i]) == Some(ps[i])
    {
      OpenedAt(c, key, base, k, cs, i);
    }
    if |ps| < |cs| {
      OpenedStop(c, key, base, k, cs);
    }
  }

  /** Plaintext i of Opened, one index at a time. */
  lemma {:induction false} OpenedAt(c: Suite, key: seq<byte>, base: seq<byte>, k: nat, cs: seq<seq<byte>>, i: nat)
    requires |base| == NonceSize && i < |Opened(c, key, base, k, cs)|
    ensures c.open(key, NonceAt(base, k + i), cs[i]) == Some(Opened(c, key, base, k, cs)[i])
    decreases i
  {
    var first := c.open(key, NonceAt(base, k), cs[0]);
    var tail := Opened(c, key, base, k + 1, cs[1..]);
    assert first.Some? && Opened(c, key, base, k, cs) == [first.value] + tail;
    if i > 0 {
      OpenedAt(c, key, base, k + 1, cs[1..], i - 1);
      assert (k + 1) + (i - 1) == k + i && cs[1..][i - 1] == cs[i];
    }
  }

  /** The chunk Opened stops at does not open. */
  lemma {:induction false} OpenedStop(c: Suite, key: seq<byte>, base: seq<byte>, k: nat, cs: seq<seq<byte>>)
    requires |base| == NonceSize && |Opened(c, key, base, k, cs)| < |cs|
    ensures var n := |Opened(c, key, base, k, cs)|;
            c.open(key, NonceAt(base, k + n), cs[n]) == None
    decreases |cs|
  {
    var first := c.open(key, NonceAt(base, k), cs[0]);
    if first.Some? {
      var tail := Opened(c, key, base, k + 1, cs[1..]);
      assert Opened(c, key, base, k, cs) == [first.value] + tail;
      OpenedStop(c, key, base, k + 1, cs[1..]);
      assert (k + 1) + |tail| == k + |tail| + 1 && cs[1..][|tail|] == cs[|tail| + 1];
    }
  }

  /** encryptStream's loop only appends to what was written, and returns nil,
      the write error or the read error, nothing else. */
  lemma {:induction false} SealLoopKeeps(c: Suite, key: seq<byte>, base: seq<byte>, k: nat,
                                         pending: seq<ReadResult>, out: seq<seq<byte>>, refuses: set<nat>)
    requires |base| == NonceSize
    ensures out <= SealLoop(c, key, base, k, pending, out, refuses).writes
    ensures var o := SealLoop(c, key, base, k, pending, out, refuses).outcome;
            o == Done || o == Fail(WriteFailed) || o.error.ReadFailed?
    decreases Weight(pending)
  {
    var (r, rest) := NextRead(pending, ChunkSize);
    if !(|r.data| > 0 && |out| in refuses) && r.status.More? {
      var out' := if |r.data| > 0 then out + [c.seal(key, NonceAt(base, k), r.data)] else out;
      var k' := if |r.data| > 0 then k + 1 else k;
      assert SealLoop(c, key, base, k, pending, out, refuses) == SealLoop(c, key, base, k', rest, out', refuses);
      SealLoopKeeps(c, key, base, k', rest, out', refuses);
      assert out <= out';
    }
  }

  /** decryptStream's loop only appends to what was written, and returns nil,
      "bad password or corrupt data", the write error or the read error. */
  lemma {:induction false} OpenLoopKeeps(c: Suite, key: seq<byte>, base: seq<byte>, k: nat,
                                         pending: seq<ReadResult>, out: seq<seq<byte>>, refuses: set<nat>)
    requires |base| == NonceSize
    ensures out <= OpenLoop(c, key, base, k, pending, out, refuses).writes
    ensures var o := OpenLoop(c, key, base, k, pending, out, refuses).outcome;
            o == Done || o == Fail(BadPasswordOrCorrupt) || o == Fail(WriteFailed) || o.error.ReadFailed?
    decreases Weight(pending)
  {
    var (r, rest) := NextRead(pending, EncChunkSize);
    var plain := c.open(key, NonceAt(base, k), r.data);
    if !(|r.data| > 0 && plain.None?) && !(|r.data| > 0 && |out| in refuses) && r.status.More? {
      var out' := if |r.data| > 0 then out + [plain.value] else out;
      var k' := if |r.data| > 0 then k + 1 else k;
      assert OpenLoop(c, key, base, k, pending, out, refuses) == OpenLoop(c, key, base, k', rest, out', refuses);
      OpenLoopKeeps(c, key, base, k', rest, out', refuses);
      assert out <= out';
    }
  }

  /** encryptStream only appends; unless a write is refused, it writes the salt
      then the nonce first; and it returns nil, the write error or the read error. */
  lemma EncryptedKeeps(c: Suite, password: seq<byte>, salt: seq<byte>, nonce: seq<byte>,
                       script: seq<ReadResult>, out: seq<seq<byte>>, refuses: set<nat>)
    requires c.Sound() && |nonce| == NonceSize
    ensures var run := Encrypted(c, password, salt, nonce, script, out, refuses);
            out <= run.writes &&
            (run.outcome != Fail(WriteFailed) ==> out + [salt, nonce] <= run.writes) &&
            (run.outcome == Done || run.outcome == Fail(WriteFailed) || run.outcome.error.ReadFailed?)
  {
    if |out| !in refuses && |out| + 1 !in refuses {
      SealLoopKeeps(c, DeriveKey(c, password, salt), nonce, 0, script, out + [salt, nonce], refuses);
      assert out <= out + [salt, nonce];
    } else if |out| !in refuses {
      assert out <= out + [salt];
    }
  }

  /** decryptStream only appends, and a header cut short (io.EOF or
      io.ErrUnexpectedEOF) writes nothing. */
  lemma DecryptedKeeps(c: Suite, password: seq<byte>, script: seq<ReadResult>,
                       out: seq<seq<byte>>, refuses: set<nat>)
    requires c.Sound()
    ensures var run := Decrypted(c, password, script, out, refuses);
            out <= run.writes &&
            (run.outcome.Fail? && (run.outcome.error.EOF? || run.outcome.error.UnexpectedEOF?) ==> run.writes == out)
  {
    var salt := FullRead(script, SaltSize);
    if salt.0.Ok? {
      var nonce := FullRead(salt.1, NonceSize);
      if nonce.0.Ok? {
        OpenLoopKeeps(c, DeriveKey(c, password, salt.0.value), nonce.0.value, 0, nonce.1, out, refuses);
      }
    }
  }

  /** With every write accepted, encryptStream's loop writes one sealed chunk
      per non-empty read, chunk i under the nonce of chunk k + i, and ends as
      its reads end. */
  lemma {:induction false} SealLoopShape(c: Suite, key: seq<byte>, base: seq<byte>, k: nat,
                                         pending: seq<ReadResult>, out: seq<seq<byte>>)
    requires |base| == NonceSize
    ensures SealLoop(c, key, base, k, pending, out, {}).writes
         == out + Sealed(c, key, base, k, Chunks(pending, ChunkSize))
    ensures SealLoop(c, key, base, k, pending, out, {}).outcome == EndOutcome(pending, ChunkSize)
    decreases Weight(pending)
  {
    var (r, rest) := NextRead(pending, ChunkSize);
    var run := SealLoop(c, key, base, k, pending, out, {});
    var tail := if r.status.More? then Chunks(rest, ChunkSize) else [];
    if |r.data| > 0 {
      var s := c.seal(key, NonceAt(base, k), r.data);
      var cs := [r.data] + tail;
      assert Chunks(pending, ChunkSize) == cs;
      assert cs[1..] == tail;
      assert Sealed(c, key, base, k, cs) == [s] + Sealed(c, key, base, k + 1, tail);
      if r.status.More? {
        assert run == SealLoop(c, key, base, k + 1, rest, out + [s], {});
        assert EndOutcome(pending, ChunkSize) == EndOutcome(rest, ChunkSize);
        SealLoopShape(c, key, base, k + 1, rest, out + [s]);
        AppendAssoc(out, [s], Sealed(c, key, base, k + 1, tail));
      } else {
        assert run.writes == out + [s];
      }
    } else {
      assert Chunks(pending, ChunkSize) == tail;
      if r.status.More? {
        assert run == SealLoop(c, key, base, k, rest, out, {});
        assert EndOutcome(pending, ChunkSize) == EndOutcome(rest, ChunkSize);
        SealLoopShape(c, key, base, k, rest, out);
      } else {
        assert run.writes == out;
      }
    }
  }

  /** With every write accepted, decryptStream's loop writes the plaintext of
      each read, chunk i opened under the nonce of chunk k + i, up to the first
      read that does not open; it then stops with the fixed authentication
      error, otherwise it ends as its reads end. */
  lemma {:induction false} OpenLoopShape(c: Suite, key: seq<byte>, base: seq<byte>, k: nat,
                                         pending: seq<ReadResult>, out: seq<seq<byte>>)
    requires |base| == NonceSize
    ensures OpenLoop(c, key, base, k, pending, out, {}).writes
         == out + Opened(c, key, base, k, Chunks(pending, EncChunkSize))
    ensures OpenLoop(c, key, base, k, pending, out, {}).outcome
         == if |Opened(c, key, base, k, Chunks(pending, EncChunkSize))| == |Chunks(pending, EncChunkSize)|
            then EndOutcome(pending, EncChunkSize)
            else Fail(BadPasswordOrCorrupt)
    decreases Weight(pending)
  {
    var (r, rest) := NextRead(pending, EncChunkSize);
    var run := OpenLoop(c, key, base, k, pending, out, {});
    var plain := c.open(key, NonceAt(base, k), r.data);
    var tail := if r.status.More? then Chunks(rest, EncChunkSize) else [];
    if |r.data| > 0 {
      var cs := [r.data] + tail;
      assert Chunks(pending, EncChunkSize) == cs;
      assert cs[1..] == tail;
      if plain.None? {
        assert Opened(c, key, base, k, cs) == [];
        assert run == Run(Fail(BadPasswordOrCorrupt), out, rest);
      } else {
        var ps := Opened(c, key, base, k + 1, tail);
        assert Opened(c, key, base, k, cs) == [plain.value] + ps;
        assert |Opened(c, key, base, k, cs)| == |cs| <==> |ps| == |tail|;
        if r.status.More? {
          assert run == OpenLoop(c, key, base, k + 1, rest, out + [plain.value], {});
          assert EndOutcome(pending, EncChunkSize) == EndOutcome(rest, EncChunkSize);
          OpenLoopShape(c, key, base, k + 1, rest, out + [plain.value]);
          AppendAssoc(out, [plain.value], ps);
        } else {
          assert run.writes == out + [plain.value];
        }
      }
    } else {
      assert Chunks(pending, EncChunkSize) == tail;
      if r.status.More? {
        assert run == OpenLoop(c, key, base, k, rest, out, {});
        OpenLoopShape(c, key, base, k, rest, out);
      } else {
        assert run.writes == out;
      }
    }
  }

  /** A refused write ends encryptStream's loop with the write error and keeps
      everything written before it: the writes are always a prefix of those of
      the run whose writes are all accepted, so no sealed chunk is skipped and
      no nonce is advanced past a chunk that was not written. */
  lemma {:induction false} SealLoopRefused(c: Suite, key: seq<byte>, base: seq<byte>, k: nat,
                                           pending: seq<ReadResult>, out: seq<seq<byte>>, refuses: set<nat>)
    requires |base| == NonceSize
    ensures var run := SealLoop(c, key, base, k, pending, out, refuses);
            var full := SealLoop(c, key, base, k, pending, out, {});
            |out| <= |run.writes| <= |full.writes| && run.writes == full.writes[..|run.writes|]
    ensures var run := SealLoop(c, key, base, k, pending, out, refuses);
            var full := SealLoop(c, key, base, k, pending, out, {});
            run.outcome == Fail(WriteFailed) ==> |run.writes| in refuses && |run.writes| < |full.writes|
    ensures var run := SealLoop(c, key, base, k, pending, out, refuses);
            var full := SealLoop(c, key, base, k, pending, out, {});
            run.outcome != Fail(WriteFailed) ==> run.writes == full.writes && run.outcome == full.outcome
    decreases Weight(pending)
  {
    var (r, rest) := NextRead(pending, ChunkSize);
    if r.status.More? && !(|r.data| > 0 && |out| in refuses) {
      SealLoopRefused(c, key, base, if |r.data| > 0 then k + 1 else k, rest,
                      if |r.data| > 0 then out + [c.seal(key, NonceAt(base, k), r.data)] else out, refuses);
    }
    SealLoopShape(c, key, base, k, pending, out);
  }

  /** The same for decryptStream's loop: a refused write ends it with the
      write error, and its writes are a prefix of those of the run whose writes
      are all accepted. */
  lemma {:induction false} OpenLoopRefused(c: Suite, key: seq<byte>, base: seq<byte>, k: nat,
                                           pending: seq<ReadResult>, out: seq<seq<byte>>, refuses: set<nat>)
    requires |base| == NonceSize
    ensures var run := OpenLoop(c, key, base, k, pending, out, refuses);
            var full := OpenLoop(c, key, base, k, pending, out, {});
            |out| <= |run.writes| <= |full.writes| && run.writes == full.writes[..|run.writes|]
    ensures var run := OpenLoop(c, key, base, k, pending, out, refuses);
            var full := OpenLoop(c, key, base, k, pending, out, {});
            run.outcome == Fail(WriteFailed) ==> |run.writes| in refuses && |run.writes| < |full.writes|
    ensures var run := OpenLoop(c, key, base, k, pending, out, refuses);
            var full := OpenLoop(c, key, base, k, pending, out, {});
            run.outcome != Fail(WriteFailed) ==> run.writes == full.writes && run.outcome == full.outcome
    decreases Weight(pending)
  {
    var (r, rest) := NextRead(pending, EncChunkSize);
    var plain := c.open(key, NonceAt(base, k), r.data);
    if r.status.More? && !(|r.data| > 0 && (plain.None? || |out| in refuses)) {
      OpenLoopRefused(c, key, base, if |r.data| > 0 then k + 1 else k, rest,
                      if |r.data| > 0 then out + [plain.value] else out, refuses);
    }
    OpenLoopShape(c, key, base, k, pending, out);
  }

  /** Reads that report no error deliver every byte of the script as chunks,
      and the loop ends at end of input. */
  lemma {:induction false} ChunksKeepBytes(pending: seq<ReadResult>, max: nat)
    requires max > 0 && AllMore(pending)
    ensures Concat(Chunks(pending, max)) == Flatten(pending)
    ensures EndOutcome(pending, max) == Done
    decreases Weight(pending)
  {
    var (r, rest) := NextRead(pending, max);
    NextReadKeepsBytes(pending, max);
    if pending != [] {
      ChunksKeepBytes(rest, max);
      assert r.status == More;
      assert r.data + Flatten(rest) == Flatten(pending);
      if |r.data| > 0 {
        assert Chunks(pending, max) == [r.data] + Chunks(rest, max);
        ConcatAppend([r.data], Chunks(rest, max));
        assert [r.data][1..] == [];
        assert Concat([r.data]) == r.data;
      } else {
        assert Chunks(pending, max) == Chunks(rest, max);
        assert r.data + Flatten(rest) == Flatten(rest);
      }
    }
  }

  /** Reads that deliver exactly the given non-empty strings, each of which
      fits the buffer, make those strings the chunks, and end at end of input. */
  lemma {:induction false} ChunksOfAligned(ws: seq<seq<byte>>, max: nat)
    requires max > 0
    requires forall i :: 0 <= i < |ws| ==> 0 < |ws[i]| <= max
    ensures Chunks(AsReads(ws), max) == ws
    ensures EndOutcome(AsReads(ws), max) == Done
    decreases |ws|
  {
    if ws != [] {
      NextReadWhole(AsReads(ws), max);
      assert AsReads(ws)[1..] == AsReads(ws[1..]);
      ChunksOfAligned(ws[1..], max);
      assert ws == [ws[0]] + ws[1..];
    }
  }

  lemma ConsAppend<T>(xs: seq<T>, after: seq<T>)
    requires xs != []
    ensures [xs[0]] + (xs[1..] + after) == xs + after
  {
    assert xs == [xs[0]] + xs[1..];
  }

  /** Opening a chunk that opens, then the ones after it. */
  lemma OpenedCons(c: Suite, key: seq<byte>, base: seq<byte>, k: nat, x: seq<byte>, xs: seq<seq<byte>>)
    requires |base| == NonceSize && c.open(key, NonceAt(base, k), x).Some?
    ensures Opened(c, key, base, k, [x] + xs)
         == [c.open(key, NonceAt(base, k), x).value] + Opened(c, key, base, k + 1, xs)
  {
    assert ([x] + xs)[1..] == xs;
  }

  /** Chunks read with a ChunkSize buffer are, once sealed, longer than the tag
      and fit decryptStream's buffer of ChunkSize + Overhead bytes. */
  lemma SealedFit(c: Suite, key: seq<byte>, base: seq<byte>, k: nat, cs: seq<seq<byte>>)
    requires c.Sound() && |base| == NonceSize
    requires forall i :: 0 <= i < |cs| ==> 0 < |cs[i]| <= ChunkSize
    ensures forall i :: 0 <= i < |cs| ==> Overhead < |Sealed(c, key, base, k, cs)[i]| <= EncChunkSize
  {
    var ss := Sealed(c, key, base, k, cs);
    SealedNonces(c, key, base, k, cs);
    forall i | 0 <= i < |cs|
      ensures Overhead < |ss[i]| <= EncChunkSize
    {
      assert ss[i] == c.seal(key, NonceAt(base, k + i), cs[i]);
    }
  }

  /** Opening chunks sealed from k on under the same key gives their
      plaintexts back, and opening goes on with what follows them. */
  lemma {:induction false} OpenSealed(c: Suite, key: seq<byte>, base: seq<byte>, k: nat,
                                      cs: seq<seq<byte>>, rest: seq<seq<byte>>)
    requires c.Sound() && |base| == NonceSize
    ensures Opened(c, key, base, k, Sealed(c, key, base, k, cs) + rest)
         == cs + Opened(c, key, base, k + |cs|, rest)
    decreases |cs|
  {
    if cs == [] {
      assert Sealed(c, key, base, k, cs) + rest == rest;
    } else {
      var s0 := c.seal(key, NonceAt(base, k), cs[0]);
      var tail := Sealed(c, key, base, k + 1, cs[1..]) + rest;
      assert Sealed(c, key, base, k, cs) + rest == [s0] + tail;
      assert c.open(key, NonceAt(base, k), s0) == Some(cs[0]);
      OpenedCons(c, key, base, k, s0, tail);
      OpenSealed(c, key, base, k + 1, cs[1..], rest);
      var after := Opened(c, key, base, k + |cs|, rest);
      assert k + 1 + |cs[1..]| == k + |cs|;
      ConsAppend(cs, after);
    }
  }

  /** io.ReadFull on reads that report no error, having got `got`: it
      succeeds with the first bytes exactly when enough are left, and leaves
      the rest pending; otherwise it consumes everything and reports io.EOF
      when no byte at all came, io.ErrUnexpectedEOF when some did. */
  lemma {:induction false} FullReadFromNoErrors(pending: seq<ReadResult>, need: nat, got: seq<byte>)
    requires |got| < need && AllMore(pending)
    ensures var res := FullReadFrom(pending, need, got);
            var all := got + Flatten(pending);
            |all| >= need ==> res.0 == Ok(all[..need]) && Flatten(res.1) == all[need..] && AllMore(res.1)
    ensures var res := FullReadFrom(pending, need, got);
            var all := got + Flatten(pending);
            |all| < need ==> res.0 == Err(if |all| == 0 then EOF else UnexpectedEOF) && res.1 == []
    decreases Weight(pending)
  {
    var (r, rest) := NextRead(pending, need - |got|);
    NextReadKeepsBytes(pending, need - |got|);
    var all := got + Flatten(pending);
    assert all == (got + r.data) + Flatten(rest);
    if |got + r.data| < need && pending != [] {
      FullReadFromNoErrors(rest, need, got + r.data);
    }
  }

  /** io.ReadFull of need bytes on reads that report no error. */
  lemma FullReadNoErrors(pending: seq<ReadResult>, need: nat)
    requires need > 0 && AllMore(pending)
    ensures var F := Flatten(pending);
            |F| >= need ==> FullRead(pending, need).0 == Ok(F[..need]) && Flatten(FullRead(pending, need).1) == F[need..]
    ensures var F := Flatten(pending);
            |F| < need ==> FullRead(pending, need).0 == Err(if |F| == 0 then EOF else UnexpectedEOF)
  {
    FullReadFromNoErrors(pending, need, []);
    assert [] + Flatten(pending) == Flatten(pending);
  }

  /** An input shorter than the 56-byte header writes nothing and fails with
      what io.ReadFull returns: io.EOF when it is empty or holds exactly the
      salt, io.ErrUnexpectedEOF otherwise. */
  lemma ShortHeader(c: Suite, password: seq<byte>, script: seq<ReadResult>, out: seq<seq<byte>>, refuses: set<nat>)
    requires c.Sound() && AllMore(script) && |Flatten(script)| < HeaderSize
    ensures Decrypted(c, password, script, out, refuses).writes == out
    ensures Decrypted(c, password, script, out, refuses).outcome
         == Fail(if |Flatten(script)| == 0 || |Flatten(script)| == SaltSize then EOF else UnexpectedEOF)
  {
    FullReadFromNoErrors(script, SaltSize, []);
    assert [] + Flatten(script) == Flatten(script);
    var salt := FullRead(script, SaltSize);
    if salt.0.Ok? {
      FullReadFromNoErrors(salt.1, NonceSize, []);
      assert [] + Flatten(salt.1) == Flatten(salt.1);
    }
  }

  /** A header delivered as the salt read and then the nonce read is taken as is. */
  lemma DecryptAlignedHeader(c: Suite, password: seq<byte>, salt: seq<byte>, nonce: seq<byte>,
                             rest: seq<seq<byte>>, out: seq<seq<byte>>, refuses: set<nat>)
    requires c.Sound() && |salt| == SaltSize && |nonce| == NonceSize
    ensures Decrypted(c, password, AsReads([salt, nonce] + rest), out, refuses)
         == OpenLoop(c, DeriveKey(c, password, salt), nonce, 0, AsReads(rest), out, refuses)
  {
    var ws := [salt, nonce] + rest;
    var script := AsReads(ws);
    NextReadWhole(script, SaltSize);
    assert script[1..] == AsReads(ws[1..]);
    assert [] + salt == salt;
    assert FullReadFrom(script, SaltSize, []) == (Ok(salt), AsReads(ws[1..]));
    NextReadWhole(AsReads(ws[1..]), NonceSize);
    assert AsReads(ws[1..])[1..] == AsReads(rest);
    assert [] + nonce == nonce;
    assert FullReadFrom(AsReads(ws[1..]), NonceSize, []) == (Ok(nonce), AsReads(rest));
  }

  /** The container encryptStream writes, every write being accepted: the
      salt, the base nonce, then chunk i of the input sealed under the nonce of
      chunk i. */
  lemma EncryptShape(c: Suite, password: seq<byte>, salt: seq<byte>, nonce: seq<byte>, script: seq<ReadResult>)
    requires c.Sound() && |nonce| == NonceSize
    ensures Encrypted(c, password, salt, nonce, script, [], {}).writes
         == [salt, nonce] + Sealed(c, DeriveKey(c, password, salt), nonce, 0, Chunks(script, ChunkSize))
    ensures Encrypted(c, password, salt, nonce, script, [], {}).outcome == EndOutcome(script, ChunkSize)
  {
    assert [] + [salt, nonce] == [salt, nonce];
    SealLoopShape(c, DeriveKey(c, password, salt), nonce, 0, script, [salt, nonce]);
  }

  /** The layout of the container: the 56-byte header is the salt then the
      base nonce, and each following write is one non-empty read of at most
      ChunkSize bytes, 16 bytes longer once sealed, sealed under the base
      nonce with its counter advanced by the chunk's index. */
  lemma EncryptLayout(c: Suite, password: seq<byte>, salt: seq<byte>, nonce: seq<byte>, script: seq<ReadResult>)
    requires c.Sound() && |salt| == SaltSize && |nonce| == NonceSize
    ensures var w := Encrypted(c, password, salt, nonce, script, [], {}).writes;
            |Concat(w)| >= HeaderSize && Concat(w)[..HeaderSize] == salt + nonce
    ensures var w := Encrypted(c, password, salt, nonce, script, [], {}).writes;
            var cs := Chunks(script, ChunkSize);
            |w| == 2 + |cs| &&
            forall i :: 0 <= i < |cs| ==>
              0 < |cs[i]| <= ChunkSize && |w[2 + i]| == |cs[i]| + Overhead &&
              w[2 + i] == c.seal(DeriveKey(c, password, salt), NonceAt(nonce, i), cs[i])
  {
    EncryptShape(c, password, salt, nonce, script);
    var key := DeriveKey(c, password, salt);
    var cs := Chunks(script, ChunkSize);
    var ss := Sealed(c, key, nonce, 0, cs);
    var w := [salt, nonce] + ss;
    SealedNonces(c, key, nonce, 0, cs);
    forall i | 0 <= i < |cs|
      ensures w[2 + i] == c.seal(key, NonceAt(nonce, i), cs[i])
    {
      assert w[2 + i] == ss[i];
    }
    ConcatAppend([salt, nonce], ss);
    assert Concat([salt, nonce]) == salt + nonce by {
      assert [salt, nonce][1..] == [nonce];
      assert Concat([nonce]) == nonce + Concat([]);
    }
  }

  /** An input that delivers no bytes and reports no error gives only the header. */
  lemma EmptyInput(c: Suite, password: seq<byte>, salt: seq<byte>, nonce: seq<byte>, script: seq<ReadResult>)
    requires c.Sound() && |salt| == SaltSize && |nonce| == NonceSize
    requires AllMore(script) && Flatten(script) == []
    ensures Encrypted(c, password, salt, nonce, script, [], {}).outcome == Done
    ensures Encrypted(c, password, salt, nonce, script, [], {}).writes == [salt, nonce]
    ensures |Concat(Encrypted(c, password, salt, nonce, script, [], {}).writes)| == HeaderSize
  {
    EncryptShape(c, password, salt, nonce, script);
    EncryptLayout(c, password, salt, nonce, script);
    ChunksKeepBytes(script, ChunkSize);
    assert [salt, nonce] + [] == [salt, nonce];
  }

  /** Decrypting a header followed by reads that each deliver one whole
      chunk: the chunks are opened in turn, chunk i under the nonce of chunk i,
      their plaintexts written, and decryption ends at end of input or with the
      fixed authentication error at the first chunk that does not open. */
  lemma DecryptAligned(c: Suite, password: seq<byte>, salt: seq<byte>, nonce: seq<byte>, ws: seq<seq<byte>>)
    requires c.Sound() && |salt| == SaltSize && |nonce| == NonceSize
    requires forall i :: 0 <= i < |ws| ==> 0 < |ws[i]| <= EncChunkSize
    ensures Decrypted(c, password, AsReads([salt, nonce] + ws), [], {}).writes
         == Opened(c, DeriveKey(c, password, salt), nonce, 0, ws)
    ensures Decrypted(c, password, AsReads([salt, nonce] + ws), [], {}).outcome
         == if |Opened(c, DeriveKey(c, password, salt), nonce, 0, ws)| == |ws| then Done
            else Fail(BadPasswordOrCorrupt)
  {
    var key := DeriveKey(c, password, salt);
    DecryptAlignedHeader(c, password, salt, nonce, ws, [], {});
    ChunksOfAligned(ws, EncChunkSize);
    OpenLoopShape(c, key, nonce, 0, AsReads(ws), []);
    assert [] + Opened(c, key, nonce, 0, ws) == Opened(c, key, nonce, 0, ws);
  }

  /** Round trip: decrypting, with the same password, reads that are exactly
      the writes of an encryption that completed writes one plaintext per
      encrypted read, and together they are the bytes the encryption read. */
  lemma RoundTrip(c: Suite, password: seq<byte>, salt: seq<byte>, nonce: seq<byte>, script: seq<ReadResult>)
    requires c.Sound() && |salt| == SaltSize && |nonce| == NonceSize && AllMore(script)
    ensures Encrypted(c, password, salt, nonce, script, [], {}).outcome == Done
    ensures var enc := Encrypted(c, password, salt, nonce, script, [], {});
            Decrypted(c, password, AsReads(enc.writes), [], {}).outcome == Done
    ensures var enc := Encrypted(c, password, salt, nonce, script, [], {});
            Decrypted(c, password, AsReads(enc.writes), [], {}).writes == Chunks(script, ChunkSize)
    ensures var enc := Encrypted(c, password, salt, nonce, script, [], {});
            Concat(Decrypted(c, password, AsReads(enc.writes), [], {}).writes) == Flatten(script)
  {
    var key := DeriveKey(c, password, salt);
    var cs := Chunks(script, ChunkSize);
    var ss := Sealed(c, key, nonce, 0, cs);
    EncryptShape(c, password, salt, nonce, script);
    ChunksKeepBytes(script, ChunkSize);
    SealedFit(c, key, nonce, 0, cs);
    DecryptAligned(c, password, salt, nonce, ss);
    OpenSealed(c, key, nonce, 0, cs, []);
    assert ss + [] == ss;
    assert cs + [] == cs;
  }

  /** Sealed chunks followed by a short non-empty fragment are all reads a
      decryption buffer takes whole. */
  lemma FitsWithTail(ss: seq<seq<byte>>, frag: seq<byte>)
    requires forall i :: 0 <= i < |ss| ==> Overhead < |ss[i]| <= EncChunkSize
    requires 0 < |frag| < Overhead
    ensures forall i :: 0 <= i < |ss + [frag]| ==> 0 < |(ss + [frag])[i]| <= EncChunkSize
  {
    forall i | 0 <= i < |ss + [frag]|
      ensures 0 < |(ss + [frag])[i]| <= EncChunkSize
    {
      if i < |ss| {
        assert (ss + [frag])[i] == ss[i];
      }
    }
  }

  /** When each write of an encryption, and then a trailing fragment shorter
      than the tag, arrive by a Read of their own, decryption ends with the
      fixed authentication error, all the plaintext before the fragment
      having been written. */
  lemma TruncatedTail(c: Suite, password: seq<byte>, salt: seq<byte>, nonce: seq<byte>, script: seq<ReadResult>,
                      frag: seq<byte>)
    requires c.Sound() && |salt| == SaltSize && |nonce| == NonceSize
    requires 0 < |frag| < Overhead
    ensures var enc := Encrypted(c, password, salt, nonce, script, [], {});
            Decrypted(c, password, AsReads(enc.writes + [frag]), [], {}).outcome == Fail(BadPasswordOrCorrupt)
    ensures var enc := Encrypted(c, password, salt, nonce, script, [], {});
            Decrypted(c, password, AsReads(enc.writes + [frag]), [], {}).writes == Chunks(script, ChunkSize)
  {
    var key := DeriveKey(c, password, salt);
    var cs := Chunks(script, ChunkSize);
    var ss := Sealed(c, key, nonce, 0, cs);
    var ws := ss + [frag];
    EncryptShape(c, password, salt, nonce, script);
    assert [salt, nonce] + ss + [frag] == [salt, nonce] + ws;
    SealedFit(c, key, nonce, 0, cs);
    FitsWithTail(ss, frag);
    DecryptAligned(c, password, salt, nonce, ws);
    OpenSealed(c, key, nonce, 0, cs, [frag]);
    assert Opened(c, key, nonce, |cs|, [frag]) == [];
  }
}
