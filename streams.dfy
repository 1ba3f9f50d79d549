/** The io.Reader the codec drains and the io.Writer it appends to.

    A source is a script of read results. Each Read returns the next scripted
    result if its bytes fit in the caller's buffer; otherwise it returns as many
    bytes as fit and keeps the rest, with the scripted status, for the next Read.
    Once the script is used up, every Read reports end of input. */
module Streams {
  import opened Bytes

  datatype Status = More | AtEOF | Failed(code: nat)

  /** (n, err) of one Read call: the bytes delivered and the error beside them. */
  datatype ReadResult = ReadResult(data: seq<byte>, status: Status)

  /** All bytes a script delivers, in order. */
  function Flatten(rs: seq<ReadResult>): seq<byte>
  {
    if rs == [] then [] else rs[0].data + Flatten(rs[1..])
  }

  /** A termination measure: every Read on a non-empty script lowers it. */
  function Weight(rs: seq<ReadResult>): nat
  {
    if rs == [] then 0 else |rs[0].data| + 1 + Weight(rs[1..])
  }

  /** The script reports no error, and no end of input before it is used up. */
  ghost predicate AllMore(rs: seq<ReadResult>)
  {
    forall i :: 0 <= i < |rs| ==> rs[i].status == More
  }

  /** One Read into a buffer of max bytes: what it returns and what stays pending. */
  function NextRead(pending: seq<ReadResult>, max: nat): (res: (ReadResult, seq<ReadResult>))
    requires max > 0
    ensures |res.0.data| <= max
    ensures pending == [] ==> res == (ReadResult([], AtEOF), [])
    ensures pending != [] ==> Weight(res.1) < Weight(pending)
  {
    if pending == [] then
      (ReadResult([], AtEOF), [])
    else if |pending[0].data| <= max then
      (pending[0], pending[1..])
    else
      var d := pending[0].data;
      var rest := [ReadResult(d[max..], pending[0].status)] + pending[1..];
      assert rest[1..] == pending[1..];
      (ReadResult(d[..max], More), rest)
  }

  /** A Read loses no bytes and invents none: what it delivers followed by what
      stays pending is what was pending. A script without errors stays so, and
      reports end of input exactly when it is used up. */
  lemma NextReadKeepsBytes(pending: seq<ReadResult>, max: nat)
    requires max > 0
    ensures NextRead(pending, max).0.data + Flatten(NextRead(pending, max).1) == Flatten(pending)
    ensures AllMore(pending) ==> AllMore(NextRead(pending, max).1)
    ensures AllMore(pending) ==> (NextRead(pending, max).0.status == More <==> pending != [])
  {
    if pending != [] && |pending[0].data| > max {
      var d := pending[0].data;
      var rest := NextRead(pending, max).1;
      assert rest[1..] == pending[1..];
      assert d[..max] + d[max..] == d;
    }
  }

  /** A Read whose buffer holds the whole next scripted result returns exactly that result. */
  lemma NextReadWhole(pending: seq<ReadResult>, max: nat)
    requires max > 0 && pending != [] && |pending[0].data| <= max
    ensures NextRead(pending, max) == (pending[0], pending[1..])
  {
  }

  /** Each byte string delivered by one Read, with no error. */
  function AsReads(ws: seq<seq<byte>>): (rs: seq<ReadResult>)
    ensures |rs| == |ws| && AllMore(rs)
    ensures forall i :: 0 <= i < |ws| ==> rs[i].data == ws[i]
  {
    seq(|ws|, i requires 0 <= i < |ws| => ReadResult(ws[i], More))
  }

  lemma {:induction false} FlattenAsReads(ws: seq<seq<byte>>)
    ensures Flatten(AsReads(ws)) == Concat(ws)
  {
    if ws != [] {
      assert AsReads(ws)[1..] == AsReads(ws[1..]);
      FlattenAsReads(ws[1..]);
    }
  }

  class Source {
    /** The reads still to come. */
    var pending: seq<ReadResult>

    constructor (script: seq<ReadResult>)
      ensures pending == script
    {
      pending := script;
    }

    /** in.Read(buf[lo:]) */
    method Read(buf: array<byte>, lo: nat) returns (n: nat, status: Status)
      requires lo < buf.Length
      modifies this, buf
      ensures lo + n <= buf.Length
      ensures n == |NextRead(old(pending), buf.Length - lo).0.data|
      ensures status == NextRead(old(pending), buf.Length - lo).0.status
      ensures buf[lo..lo + n] == NextRead(old(pending), buf.Length - lo).0.data
      ensures pending == NextRead(old(pending), buf.Length - lo).1
      ensures buf[..lo] == old(buf[..lo]) && buf[lo + n..] == old(buf[lo + n..])
    {
      var (r, rest) := NextRead(pending, buf.Length - lo);
      pending := rest;
      n, status := |r.data|, r.status;
      forall i | 0 <= i < n {
        buf[lo + i] := r.data[i];
      }
      assert buf[lo..lo + n] == r.data;
    }
  }

  class Sink {
    /** The byte strings accepted so far, one per successful Write. */
    var writes: seq<seq<byte>>
    /** A Write fails, writing nothing, when the number of writes accepted so far is in this set. */
    const refuses: set<nat>

    constructor (refuses: set<nat>)
      ensures writes == [] && this.refuses == refuses
    {
      writes := [];
      this.refuses := refuses;
    }

    /** out.Write(p) */
    method Write(p: seq<byte>) returns (ok: bool)
      modifies this
      ensures ok == (|old(writes)| !in refuses)
      ensures writes == if ok then old(writes) + [p] else old(writes)
    {
      ok := |writes| !in refuses;
      if ok {
        writes := writes + [p];
      }
    }
  }
}
