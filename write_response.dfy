/** Sending a response: its buffers are written one after another, each through as many
    partial writes as the socket needs, and the bytes accepted are summed. The socket is
    abstracted by `caps`: write number `k` accepts `caps[k]` bytes, or the whole remaining
    buffer when that is shorter or when `k` is past the end of `caps`. Every behaviour of a
    write that accepts between one byte and the whole buffer is one such choice. */
module ResponseWriter {
  import opened Text
  import opened HttpTypes
  import opened ResponseBuffers

  type Pos = n: nat | n > 0 witness 1

  /** One socket write: the bytes offered and how many of them were accepted. */
  datatype WriteCall = WriteCall(offered: string, accepted: nat)

  /** How many bytes write number `k` accepts out of `remaining`. */
  function Accepted(caps: seq<Pos>, k: nat, remaining: string): (n: nat)
    ensures remaining != [] ==> 0 < n <= |remaining|
  {
    if k < |caps| && caps[k] < |remaining| then caps[k] else |remaining|
  }

  /** The writes issued so far, `done`, followed by those that drain `buf`. */
  function Drain(buf: string, caps: seq<Pos>, done: seq<WriteCall>): seq<WriteCall>
    decreases |buf|
  {
    if buf == [] then done
    else
      var n := Accepted(caps, |done|, buf);
      Drain(buf[n..], caps, done + [WriteCall(buf, n)])
  }

  /** The writes issued so far, `done`, followed by those that drain each of `bufs` in turn. */
  function DrainAll(bufs: seq<string>, caps: seq<Pos>, done: seq<WriteCall>): seq<WriteCall> {
    if bufs == [] then done else DrainAll(bufs[1..], caps, Drain(bufs[0], caps, done))
  }

  /** The bytes a write actually sent. */
  function Chunk(c: WriteCall): string {
    c.offered[..if c.accepted <= |c.offered| then c.accepted else |c.offered|]
  }

  /** Everything a list of writes sent, in order. */
  function Sent(calls: seq<WriteCall>): string {
    if calls == [] then [] else Sent(calls[..|calls| - 1]) + Chunk(calls[|calls| - 1])
  }

  /** The sum of the byte counts the writes returned. */
  function Total(calls: seq<WriteCall>): nat {
    if calls == [] then 0 else Total(calls[..|calls| - 1]) + calls[|calls| - 1].accepted
  }

  /** `write_http_response`: serialises the response, then writes its buffers in order.
      Returns the total byte count and the writes issued. */
  method WriteHttpResponse(resp: Response, caps: seq<Pos>) returns (bytesWritten: nat, writes: seq<WriteCall>)
    ensures writes == DrainAll(Serialized(resp), caps, [])
    ensures bytesWritten == Total(writes) == |Concat(Serialized(resp))|
    ensures Sent(writes) == StatusLine(resp.status) + HeaderText(resp.headers) + CRLF + resp.body
  {
    var outBuffers := ToBuffers(resp, []);
    assert outBuffers == Serialized(resp);
    bytesWritten, writes := WriteBuffers(outBuffers, caps);
    DrainAllBytes(outBuffers, caps, []);
    WireBytes(resp);
  }

  /** The outer loop of `write_http_response`: each buffer in turn is written until it is
      empty, and the accepted byte counts are summed. */
  method WriteBuffers(bufs: seq<string>, caps: seq<Pos>) returns (bytesWritten: nat, writes: seq<WriteCall>)
    ensures writes == DrainAll(bufs, caps, [])
    ensures bytesWritten == Total(writes)
  {
    bytesWritten := 0;
    writes := [];
    for i := 0 to |bufs|
      invariant DrainAll(bufs[i..], caps, writes) == DrainAll(bufs, caps, [])
      invariant bytesWritten == Total(writes)
    {
      writes, bytesWritten := WriteBuffer(bufs[i], caps, writes, bytesWritten);
      assert bufs[i..][1..] == bufs[i + 1..];
    }
    assert bufs[|bufs|..] == [];
  }

  /** The inner loop of `write_http_response`: writes `buf` until nothing of it is left,
      appending each write to `writes` and its byte count to `bytesWritten`. */
  method WriteBuffer(buf: string, caps: seq<Pos>, writes: seq<WriteCall>, bytesWritten: nat)
    returns (writes': seq<WriteCall>, bytesWritten': nat)
    requires bytesWritten == Total(writes)
    ensures writes' == Drain(buf, caps, writes)
    ensures bytesWritten' == Total(writes')
  {
    var rest := buf;
    writes', bytesWritten' := writes, bytesWritten;
    while rest != []
      invariant Drain(rest, caps, writes') == Drain(buf, caps, writes)
      invariant bytesWritten' == Total(writes')
      decreases |rest|
    {
      var n := Accepted(caps, |writes'|, rest);
      assert (writes' + [WriteCall(rest, n)])[..|writes'|] == writes';
      writes' := writes' + [WriteCall(rest, n)];
      bytesWritten' := bytesWritten' + n;
      rest := rest[n..];
    }
  }

  // ---------------------------------------------------------------------------------------
  // Properties of the writes

  /** Draining a buffer sends exactly its bytes, and the byte counts add up to its length. */
  lemma {:induction false} DrainBytes(buf: string, caps: seq<Pos>, done: seq<WriteCall>)
    ensures Sent(Drain(buf, caps, done)) == Sent(done) + buf
    ensures Total(Drain(buf, caps, done)) == Total(done) + |buf|
    decreases |buf|
  {
    if buf != [] {
      var n := Accepted(caps, |done|, buf);
      var next := done + [WriteCall(buf, n)];
      assert next[..|next| - 1] == done;
      DrainBytes(buf[n..], caps, next);
      assert buf == buf[..n] + buf[n..];
    }
  }

  /** Draining a list of buffers sends their concatenation, and the byte counts add up to its
      length. */
  lemma {:induction false} DrainAllBytes(bufs: seq<string>, caps: seq<Pos>, done: seq<WriteCall>)
    ensures Sent(DrainAll(bufs, caps, done)) == Sent(done) + Concat(bufs)
    ensures Total(DrainAll(bufs, caps, done)) == Total(done) + |Concat(bufs)|
  {
    if bufs != [] {
      DrainBytes(bufs[0], caps, done);
      DrainAllBytes(bufs[1..], caps, Drain(bufs[0], caps, done));
    }
  }

  /** A write is offered a non-empty buffer and accepts between one byte and all of it. */
  predicate ProperCall(c: WriteCall) {
    c.offered != [] && 0 < c.accepted <= |c.offered|
  }

  /** Draining keeps the earlier writes, adds no write for an empty buffer, and every write
      it adds is proper. */
  lemma {:induction false} DrainProper(buf: string, caps: seq<Pos>, done: seq<WriteCall>)
    ensures var r := Drain(buf, caps, done);
            |r| >= |done| && r[..|done|] == done
            && (buf == [] <==> |r| == |done|)
            && forall j :: |done| <= j < |r| ==> ProperCall(r[j])
    decreases |buf|
  {
    if buf != [] {
      var n := Accepted(caps, |done|, buf);
      var next := done + [WriteCall(buf, n)];
      DrainProper(buf[n..], caps, next);
      var r := Drain(buf, caps, done);
      assert r[..|next|] == next;
      assert r[..|done|] == next[..|done|];
      assert r[|done|] == next[|done|];
    }
  }

  lemma {:induction false} DrainAllProper(bufs: seq<string>, caps: seq<Pos>, done: seq<WriteCall>)
    ensures var r := DrainAll(bufs, caps, done);
            |r| >= |done| && r[..|done|] == done
            && forall j :: |done| <= j < |r| ==> ProperCall(r[j])
  {
    if bufs != [] {
      var mid := Drain(bufs[0], caps, done);
      DrainProper(bufs[0], caps, done);
      DrainAllProper(bufs[1..], caps, mid);
      var r := DrainAll(bufs, caps, done);
      assert r[..|done|] == r[..|mid|][..|done|];
      forall j | |done| <= j < |r|
        ensures ProperCall(r[j])
      {
        if j < |mid| {
          assert r[j] == r[..|mid|][j];
        }
      }
    }
  }

  /** Within one buffer, the first write is offered the whole buffer, and each later write
      what the previous one left: its bytes without the first `accepted`. */
  lemma {:induction false} DrainChain(buf: string, caps: seq<Pos>, done: seq<WriteCall>)
    ensures var r := Drain(buf, caps, done);
            (buf != [] ==> |r| > |done| && r[|done|].offered == buf)
            && forall j :: |done| <= j < |r| - 1 ==>
                 r[j].accepted <= |r[j].offered| && r[j + 1].offered == r[j].offered[r[j].accepted..]
    decreases |buf|
  {
    if buf != [] {
      var n := Accepted(caps, |done|, buf);
      var next := done + [WriteCall(buf, n)];
      DrainChain(buf[n..], caps, next);
      DrainProper(buf[n..], caps, next);
      var r := Drain(buf, caps, done);
      assert r[|done|] == r[..|next|][|done|] == WriteCall(buf, n);
      if |r| - 1 > |done| {
        assert buf[n..] != [];
      }
    }
  }

  /** Whatever the socket accepts per write, the writes for a response send its wire text in
      order, each write is proper, and the byte counts add up to the text's length. */
  lemma {:induction false} ResponseFullySent(resp: Response, caps: seq<Pos>)
    ensures var writes := DrainAll(Serialized(resp), caps, []);
            Sent(writes) == StatusLine(resp.status) + HeaderText(resp.headers) + CRLF + resp.body
            && Total(writes) == |Sent(writes)|
            && forall j :: 0 <= j < |writes| ==> ProperCall(writes[j])
  {
    DrainAllBytes(Serialized(resp), caps, []);
    DrainAllProper(Serialized(resp), caps, []);
    WireBytes(resp);
  }
}
