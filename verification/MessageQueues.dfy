/**
 The message queue of one connection as the library implements it: two fixed arrays, a fill
 count for the receive side and two cursors for the send side, all updated in place.
 Every method is proved against the functions of TxRing and Reassembly.
 */
module MessageQueues {
  import opened Frames
  import opened TxRing
  import opened Reassembly

  /** What `read()` on the socket gave: bytes, nothing (end of stream or would block), or an error. */
  datatype SocketRead = Bytes(data: seq<Byte>) | Nothing | Failed

  /** Which error, if any, a call to Read reports to the error callback. */
  datatype ReadReport = NoError | ReadError | InvalidProtocolMagic | MessageHandlerError | FrameTooLarge

  function ReportOf(v: Verdict): ReadReport {
    match v
    case Waiting => NoError
    case InvalidMagic => InvalidProtocolMagic
    case HandlerError => MessageHandlerError
    case OversizeFrame => FrameTooLarge
  }

  /** The bytes from one cursor of a ring to another. */
  function Window(b: seq<Byte>, start: nat, end: nat): (w: seq<Byte>)
    requires start <= |b| && end <= |b|
  {
    if end >= start then b[start..end] else b[start..] + b[..end]
  }

  /** `b` with `data` copied in at `at`. */
  function Overwrite(b: seq<Byte>, at: nat, data: seq<Byte>): (c: seq<Byte>)
    requires at + |data| <= |b|
    ensures |c| == |b|
  {
    b[..at] + data + b[at + |data|..]
  }

  /** Copying into free space after the end cursor extends the window by the bytes copied. */
  lemma OverwriteExtendsWindow(b: seq<Byte>, start: nat, end: nat, data: seq<Byte>)
    requires start < |b| && end < |b|
    requires if end >= start then end + |data| <= |b| else end + |data| <= start
    ensures var c := Overwrite(b, end, data);
            if end >= start then c[start..end + |data|] == b[start..end] + data
            else c[start..] + c[..end + |data|] == (b[start..] + b[..end]) + data
  {
    var c := Overwrite(b, end, data);
    assert c[..end] == b[..end] && c[end..end + |data|] == data;
    if end >= start {
      assert c[start..end + |data|] == c[start..end] + c[end..end + |data|];
    } else {
      assert c[start..] == b[start..];
      assert c[..end + |data|] == c[..end] + c[end..end + |data|];
    }
  }

  /** Moving the start cursor over contiguous bytes removes exactly those from the window. */
  lemma WindowSplits(b: seq<Byte>, start: nat, end: nat, n: nat)
    requires start < |b| && end < |b| && start != end
    requires if end > start then start + n <= end else start + n <= |b|
    ensures start + n <= |b|
    ensures Window(b, start, end) == b[start..start + n] + Window(b, if start + n == |b| then 0 else start + n, end)
  {
    if end < start {
      assert b[start..] == b[start..start + n] + b[start + n..];
    }
  }

  class MessageQueue {
    const rxBuffer: array<Byte>
    var rxOffset: int
    const txBuffer: array<Byte>
    var txStart: int
    var txEnd: int
    /** The messages Write has accepted. */
    ghost var log: seq<Message>

    ghost predicate Valid()
      reads this
    {
      && rxBuffer.Length == MAX_RX_BUFFER && 0 <= rxOffset <= MAX_RX_BUFFER
      && txBuffer.Length == MAX_TX_BUFFER && 0 <= txStart < MAX_TX_BUFFER && 0 <= txEnd < MAX_TX_BUFFER
      && rxBuffer != txBuffer
    }

    /** The bytes received and not yet delivered. */
    ghost function Received(): seq<Byte>
      reads this, rxBuffer
      requires Valid()
    {
      rxBuffer[..rxOffset]
    }

    /** The bytes queued and not yet written to the socket, in order. */
    ghost function Pending(): (p: seq<Byte>)
      reads this, txBuffer
      requires Valid()
      ensures |p| < MAX_TX_BUFFER
    {
      Window(txBuffer[..], txStart, txEnd)
    }

    ghost function Ring(): (t: Tx)
      reads this, txBuffer
      requires Valid()
      ensures t.Valid() && t.End() == txEnd
    {
      Tx(txStart, Pending())
    }

    constructor ()
      ensures Valid()
      ensures fresh(this) && fresh(rxBuffer) && fresh(txBuffer)
      ensures Received() == [] && Ring() == Tx(0, []) && log == []
    {
      rxBuffer := new Byte[MAX_RX_BUFFER](_ => 0);
      txBuffer := new Byte[MAX_TX_BUFFER](_ => 0);
      rxOffset, txStart, txEnd, log := 0, 0, 0, [];
    }

    /** Both kinds of write share the contiguous-space test and the copy. */
    method WriteRaw(data: seq<Byte>) returns (ok: bool)
      requires Valid()
      modifies `txEnd, txBuffer
      ensures Valid()
      ensures ok == TxRing.Write(old(Ring()), data).ok
      ensures Ring() == TxRing.Write(old(Ring()), data).tx
      ensures !ok ==> txEnd == old(txEnd) && txBuffer[..] == old(txBuffer[..])
    {
      ContiguousSpaceDecides(Ring(), data);
      var availableSpace := if txEnd >= txStart then MAX_TX_BUFFER - txEnd else txStart - txEnd;
      if |data| > availableSpace {
        return false;
      }
      OverwriteExtendsWindow(txBuffer[..], txStart, txEnd, data);
      CopyIn(data);
      txEnd := txEnd + |data|;
      if txEnd >= MAX_TX_BUFFER {
        txEnd := 0;
      }
      return true;
    }

    /** The copy into the send buffer at the end cursor. */
    method CopyIn(data: seq<Byte>)
      requires Valid() && txEnd + |data| <= MAX_TX_BUFFER
      modifies txBuffer
      ensures txBuffer[..] == Overwrite(old(txBuffer[..]), txEnd, data)
    {
      forall i | 0 <= i < |data| {
        txBuffer[txEnd + i] := data[i];
      }
    }

    method Write(msg: Message) returns (ok: bool)
      requires Valid() && Sendable(msg)
      modifies `txEnd, `log, txBuffer
      ensures Valid()
      ensures ok == TxRing.Write(old(Ring()), Encode(msg)).ok
      ensures Ring() == TxRing.Write(old(Ring()), Encode(msg)).tx
      ensures log == if ok then old(log) + [msg] else old(log)
      ensures !ok ==> txEnd == old(txEnd) && txBuffer[..] == old(txBuffer[..])
    {
      ok := WriteRaw(Encode(msg));
      if ok {
        log := log + [msg];
      }
    }

    method HasPendingWrites() returns (yes: bool)
      requires Valid()
      ensures yes <==> Pending() != []
    {
      yes := txStart != txEnd;
    }

    method IsSaturated() returns (yes: bool)
      requires Valid()
      ensures yes <==> |Pending()| > 500_000
      ensures yes <==> Ring().Saturated()
    {
      var pendingBytes := if txEnd >= txStart then txEnd - txStart else MAX_TX_BUFFER - txStart + txEnd;
      yes := pendingBytes > MAX_TX_BUFFER / 2;
    }

    /** Advances the start cursor over bytes the socket took. */
    method Consume(bytesWritten: nat) returns (written: seq<Byte>)
      requires Valid() && 0 < bytesWritten <= Ring().Offered()
      modifies `txStart
      ensures Valid()
      ensures Ring() == old(Ring()).Advance(bytesWritten)
      ensures written == old(Pending())[..bytesWritten]
      ensures txStart == if old(txStart) + bytesWritten == MAX_TX_BUFFER then 0 else old(txStart) + bytesWritten
    {
      WindowSplits(txBuffer[..], txStart, txEnd, bytesWritten);
      written := txBuffer[txStart..txStart + bytesWritten];
      txStart := txStart + bytesWritten;
      if txStart >= MAX_TX_BUFFER {
        txStart := 0;
      }
    }

    /** `result` is what `write()` returns if it is called; `written` is what reached the socket. */
    method FlushWrites(result: int) returns (written: seq<Byte>)
      requires Valid()
      modifies `txStart
      ensures Valid()
      ensures result <= 0 ==> written == [] && txStart == old(txStart)
      ensures result > 0 ==>
                var contiguous := if txEnd >= old(txStart) then txEnd - old(txStart) else MAX_TX_BUFFER - old(txStart);
                |written| == if result < contiguous then result else contiguous
      ensures txStart ==
              if old(txStart) + |written| == MAX_TX_BUFFER then 0 else old(txStart) + |written|
      ensures written + Pending() == old(Pending())
      ensures Ring() == TxRing.Flush(old(Ring()), result) && |written| == Taken(old(Ring()), result)
    {
      written := [];
      assert Ring().Offered() == if txEnd >= txStart then txEnd - txStart else MAX_TX_BUFFER - txStart;
      if txStart == txEnd {
        return;
      }
      var bytesToWrite := if txEnd > txStart then txEnd - txStart else MAX_TX_BUFFER - txStart;
      var bytesWritten := if result < bytesToWrite then result else bytesToWrite;
      if bytesWritten > 0 {
        ghost var was := Pending();
        written := Consume(bytesWritten);
        assert was == was[..bytesWritten] + was[bytesWritten..];
      }
    }

    /** `read()` into the free part of the receive buffer. */
    method Receive(data: seq<Byte>)
      requires Valid() && |data| <= MAX_RX_BUFFER - rxOffset
      modifies `rxOffset, rxBuffer
      ensures Valid() && Received() == old(Received()) + data
      ensures Ring() == old(Ring())
    {
      forall i | 0 <= i < |data| {
        rxBuffer[rxOffset + i] := data[i];
      }
      rxOffset := rxOffset + |data|;
    }

    /** The validation of the magic number and of the length, on the raw header bytes. */
    method PeekFrame() returns (front: Front)
      requires Valid() && rxOffset >= HEADER_SIZE
      ensures front == FrontOf(Received())
    {
      ghost var buffer := Received();
      assert rxBuffer[0..4] == buffer[0..4] && rxBuffer[4..8] == buffer[4..8] && rxBuffer[8..12] == buffer[8..12];
      if GetU32(rxBuffer[0..4]) != PROTOCOL_MAGIC {
        return BadMagic;
      }
      var length := GetU32(rxBuffer[8..12]);
      if length > INT_MAX - HEADER_SIZE {
        return Oversize;
      }
      var total := HEADER_SIZE + length;
      if rxOffset < total {
        return Incomplete;
      }
      assert rxBuffer[HEADER_SIZE..total] == rxBuffer[..rxOffset][HEADER_SIZE..total];
      return Complete(RawMessage(GetU32(rxBuffer[4..8]), rxBuffer[HEADER_SIZE..total]));
    }

    /** Removes `total` bytes from the front by moving the rest of the buffer down. */
    method DropFront(total: nat)
      requires Valid() && total <= rxOffset
      modifies `rxOffset, rxBuffer
      ensures Valid()
      ensures rxOffset == old(rxOffset) - total
      ensures Received() == old(Received())[total..]
      ensures Ring() == old(Ring())
    {
      rxOffset := rxOffset - total;
      forall i | 0 <= i < rxOffset {
        rxBuffer[i] := rxBuffer[total + i];
      }
    }

    /** The frame loop: validate the front, deliver, move the rest of the buffer down. */
    method DeliverFrames<S>(context: S, onMessage: (S, Message) -> (S, bool))
      returns (context': S, report: ReadReport, ghost accepted: seq<Message>)
      requires Valid()
      modifies `rxOffset, rxBuffer
      ensures Valid()
      ensures var o := Process(old(Received()), context, onMessage);
              && context' == o.state && accepted == o.accepted
              && Received() == o.rest && report == ReportOf(o.verdict)
    {
      ghost var whole := Process(Received(), context, onMessage);
      context', report, accepted := context, NoError, [];
      while rxOffset >= HEADER_SIZE
        invariant Valid()
        invariant var o := Process(Received(), context', onMessage);
                  && whole.state == o.state && whole.rest == o.rest && whole.verdict == o.verdict
                  && whole.accepted == accepted + o.accepted
        decreases rxOffset
      {
        ghost var buffer := Received();
        var front := PeekFrame();
        if front.BadMagic? {
          report := InvalidProtocolMagic;
          return;
        }
        if front.Oversize? {
          report := FrameTooLarge;
          return;
        }
        if front.Incomplete? {
          break;
        }
        var (state, ok) := onMessage(context', front.msg);
        context' := state;
        if !ok {
          report := MessageHandlerError;
          return;
        }
        DropFront(FrameSize(front.msg));
        ghost var rest := Process(Received(), context', onMessage);
        Regroup(accepted, [front.msg], rest.accepted);
        accepted := accepted + [front.msg];
      }
      assert accepted + [] == accepted;
    }

    /** One call on readable input: nothing is delivered unless something was read. */
    method Read<S>(incoming: SocketRead, context: S, onMessage: (S, Message) -> (S, bool))
      returns (context': S, report: ReadReport, ghost accepted: seq<Message>)
      requires Valid()
      requires incoming.Bytes? ==> |incoming.data| <= MAX_RX_BUFFER - rxOffset
      modifies `rxOffset, rxBuffer
      ensures Valid()
      ensures incoming.Failed? ==> report == ReadError
      ensures incoming.Nothing? ==> report == NoError
      ensures !incoming.Bytes? || incoming.data == [] ==>
                context' == context && accepted == [] && Received() == old(Received())
      ensures incoming.Bytes? && incoming.data != [] ==>
                var o := Process(old(Received()) + incoming.data, context, onMessage);
                && context' == o.state && accepted == o.accepted
                && Received() == o.rest && report == ReportOf(o.verdict)
    {
      context', report, accepted := context, NoError, [];
      match incoming
      case Failed => report := ReadError;
      case Nothing =>
      case Bytes(data) =>
        if data == [] {
          return;
        }
        Receive(data);
        context', report, accepted := DeliverFrames(context, onMessage);
    }
  }

  /** Two queues that share no buffer. */
  predicate Apart(a: MessageQueue, b: MessageQueue) {
    && a != b
    && {a.txBuffer, a.rxBuffer} !! {b.txBuffer, b.rxBuffer}
  }
}
