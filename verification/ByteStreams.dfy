/**
 One direction of a connection as bytes: what the sender's ring accepted is in frames the peer
 accepted, in the peer's buffer, on the wire, or still in the ring.
 */
module ByteStreams {
  import opened Frames
  import opened TxRing
  import opened Reassembly

  ghost predicate Stream(log: seq<Message>, taken: seq<Message>, buffer: seq<Byte>, wire: seq<Byte>, tx: Tx) {
    EncodeAll(log) == EncodeAll(taken) + (buffer + wire + tx.pending)
  }

  /** `read()` returns at most what is on the wire and at most the room it was offered. */
  function ReadSize(buffer: seq<Byte>, wire: seq<Byte>, result: int): (n: nat)
    ensures n <= |wire|
    ensures n > 0 ==> |buffer| + n <= MAX_RX_BUFFER
    ensures result <= 0 ==> n == 0
    ensures result > 0 && |buffer| <= MAX_RX_BUFFER ==>
              n <= result && (n == result || n == |wire| || |buffer| + n == MAX_RX_BUFFER)
  {
    var room := MAX_RX_BUFFER - |buffer|;
    var most := if room < |wire| then room else |wire|;
    if result <= 0 || most <= 0 then 0 else if result < most then result else most
  }

  lemma StreamFlush(log: seq<Message>, taken: seq<Message>, buffer: seq<Byte>, wire: seq<Byte>, tx: Tx, result: int)
    requires tx.Valid() && Stream(log, taken, buffer, wire, tx)
    ensures Stream(log, taken, buffer, wire + tx.pending[..Taken(tx, result)], Flush(tx, result))
  {
    var n := Taken(tx, result);
    assert buffer + wire + tx.pending == buffer + (wire + tx.pending[..n]) + tx.pending[n..];
  }

  lemma StreamWrite(log: seq<Message>, taken: seq<Message>, buffer: seq<Byte>, wire: seq<Byte>, tx: Tx,
                    ms: seq<Message>, tx': Tx)
    requires Stream(log, taken, buffer, wire, tx)
    requires tx'.pending == tx.pending + EncodeAll(ms)
    ensures Stream(log + ms, taken, buffer, wire, tx')
  {
    EncodeAllAppend(log, ms);
    Regroup(EncodeAll(taken), buffer + wire + tx.pending, EncodeAll(ms));
    Regroup(buffer + wire, tx.pending, EncodeAll(ms));
  }

  lemma StreamRead<S>(log: seq<Message>, taken: seq<Message>, buffer: seq<Byte>, wire: seq<Byte>, tx: Tx, n: nat,
                      s: S, handle: (S, Message) -> (S, bool))
    requires n <= |wire| && Stream(log, taken, buffer, wire, tx)
    ensures var o := Process(buffer + wire[..n], s, handle);
            Stream(log, taken + o.accepted, o.rest, wire[n..], tx)
  {
    var o := Process(buffer + wire[..n], s, handle);
    ProcessSplitsBuffer(buffer + wire[..n], s, handle);
    EncodeAllAppend(taken, o.accepted);
    Regroup(EncodeAll(taken), EncodeAll(o.accepted), o.rest);
    Regroup(EncodeAll(taken), buffer, wire[..n]);
    MoveAcross(EncodeAll(taken), buffer, wire, n, tx.pending, EncodeAll(taken + o.accepted), o.rest);
  }

  /** Bytes moved from the wire into accepted frames and buffer leave the whole stream unchanged. */
  lemma MoveAcross(a: seq<Byte>, b: seq<Byte>, wire: seq<Byte>, n: nat, p: seq<Byte>, a': seq<Byte>, b': seq<Byte>)
    requires n <= |wire| && a' + b' == a + b + wire[..n]
    ensures a' + (b' + wire[n..] + p) == a + (b + wire + p)
  {
    assert a' + (b' + wire[n..] + p) == (a' + b') + (wire[n..] + p);
    assert a + (b + wire + p) == (a + b + wire[..n]) + (wire[n..] + p);
  }

  /** Every message a read makes complete is one the sender queued, in its place. */
  lemma CompleteMessagesAreQueued(log: seq<Message>, taken: seq<Message>, buffer: seq<Byte>, wire: seq<Byte>, tx: Tx,
                                  n: nat)
    requires n <= |wire| && Stream(log, taken, buffer, wire, tx)
    ensures taken + Parse(buffer + wire[..n]).msgs <= log
  {
    var b := buffer + wire[..n];
    var p := Parse(b);
    ParseIsSound(b);
    EncodeAllAppend(taken, p.msgs);
    assert b == EncodeAll(p.msgs) + p.rest;
    Regroup(EncodeAll(taken), EncodeAll(p.msgs), p.rest);
    Regroup(EncodeAll(taken), buffer, wire[..n]);
    MoveAcross(EncodeAll(taken), buffer, wire, n, tx.pending, EncodeAll(taken + p.msgs), p.rest);
    FramingIsPrefixFree(taken + p.msgs, p.rest + wire[n..] + tx.pending, log);
  }
}
