/**
 The client's steps of a download on the real objects: the frame loop with the download handler,
 which queues its acknowledgement on the very queue the loop reads from, and the flushes.  Each
 method does what its step of the system in Download does.
 */
module ClientLoop {
  import opened Frames
  import opened Reassembly
  import opened ByteStreams
  import opened HandlerBuffers
  import opened MessageQueues
  import opened FileTransferClient
  import opened Download

  predicate IsLongAnswer(m: Message) {
    m.kind == FILE_READY_RECV && !StaysInClientBuffer(m)
  }

  ghost predicate SomeLongAnswer(ms: seq<Message>) {
    exists i :: 0 <= i < |ms| && IsLongAnswer(ms[i])
  }

  /** Some complete message in the buffer is an answer that does not fit the handler's buffer. */
  ghost predicate HasLongAnswer(b: seq<Byte>) {
    SomeLongAnswer(Parse(b).msgs)
  }

  lemma LongAnswerIn(a: seq<Message>, b: seq<Message>)
    ensures SomeLongAnswer(a + b) <==> SomeLongAnswer(a) || SomeLongAnswer(b)
  {
    if i :| 0 <= i < |a| && IsLongAnswer(a[i]) {
      assert IsLongAnswer((a + b)[i]);
    }
    if i :| 0 <= i < |b| && IsLongAnswer(b[i]) {
      assert IsLongAnswer((a + b)[|a| + i]);
    }
    if i :| 0 <= i < |a + b| && IsLongAnswer((a + b)[i]) {
      assert if i < |a| then IsLongAnswer(a[i]) else IsLongAnswer(b[i - |a|]);
    }
  }

  lemma LongFront(b: seq<Byte>, m: Message)
    requires FrontOf(b) == Complete(m)
    ensures HasLongAnswer(b) <==> IsLongAnswer(m) || HasLongAnswer(b[FrameSize(m)..])
  {
    LongAnswerIn([m], Parse(b[FrameSize(m)..]).msgs);
    assert SomeLongAnswer([m]) <==> IsLongAnswer([m][0]);
  }

  function Received(b: seq<Byte>, c: LiveClient, results: nat -> int): Outcome<LiveClient> {
    Process(b, c, OnClientMessage(results))
  }

  /** The handler, seen from the receive side of the queue it may write to. */
  method TakeMessage(d: Downloader, queue: MessageQueue, msg: Message, results: nat -> int) returns (overrun: bool)
    requires queue.Valid()
    modifies d, queue`txEnd, queue`log, queue.txBuffer
    ensures queue.Valid()
    ensures queue.Received() == old(queue.Received()) && queue.rxOffset == old(queue.rxOffset)
    ensures overrun <==> IsLongAnswer(msg)
    ensures !overrun ==> (d.View(queue), true) == ClientHandles(old(d.View(queue)), msg, results)
  {
    var status;
    status, overrun := d.HandleDownloadMessage(queue, msg, results(d.writeCalls));
  }

  /** One iteration of the frame loop: the front is delivered and removed, or the loop is left. */
  method TakeFront(d: Downloader, queue: MessageQueue, results: nat -> int)
    returns (more: bool, report: ReadReport, overrun: bool, ghost taken: seq<Message>)
    requires queue.Valid() && queue.rxOffset >= HEADER_SIZE
    modifies d, queue`txEnd, queue`log, queue.txBuffer, queue`rxOffset, queue.rxBuffer
    ensures queue.Valid()
    ensures HasLongAnswer(old(queue.Received())) <==> overrun || (more && HasLongAnswer(queue.Received()))
    ensures more ==> !overrun && report == NoError && queue.rxOffset < old(queue.rxOffset)
    ensures !overrun ==>
              var o := Received(old(queue.Received()), old(d.View(queue)), results);
              if more then
                var rest := Received(queue.Received(), d.View(queue), results);
                o == Outcome(rest.state, taken + rest.accepted, rest.rest, rest.verdict)
              else
                taken == [] && ReportOf(o.verdict) == report
                && o == Outcome<LiveClient>.Outcome(d.View(queue), [], queue.Received(), o.verdict)
  {
    more, report, overrun, taken := false, NoError, false, [];
    var front := queue.PeekFrame();
    match front
    case BadMagic => report := InvalidProtocolMagic;
    case Oversize => report := FrameTooLarge;
    case Incomplete =>
    case Complete(msg) =>
      LongFront(queue.Received(), msg);
      overrun := TakeMessage(d, queue, msg, results);
      if overrun {
        return;
      }
      queue.DropFront(FrameSize(msg));
      more, taken := true, [msg];
  }

  /** The frame loop of the client, with the download handler. */
  method TakeFrames(d: Downloader, queue: MessageQueue, results: nat -> int)
    returns (report: ReadReport, overrun: bool, ghost accepted: seq<Message>)
    requires queue.Valid()
    modifies d, queue`txEnd, queue`log, queue.txBuffer, queue`rxOffset, queue.rxBuffer
    ensures queue.Valid()
    ensures overrun <==> HasLongAnswer(old(queue.Received()))
    ensures !overrun ==>
              var o := Received(old(queue.Received()), old(d.View(queue)), results);
              && o == Outcome<LiveClient>.Outcome(d.View(queue), accepted, queue.Received(), o.verdict)
              && report == ReportOf(o.verdict)
  {
    ghost var before := queue.Received();
    ghost var whole := Received(before, d.View(queue), results);
    report, overrun, accepted := NoError, false, [];
    var more := true;
    while more && queue.rxOffset >= HEADER_SIZE
      invariant queue.Valid()
      invariant HasLongAnswer(before) <==> overrun || (more && HasLongAnswer(queue.Received()))
      invariant more ==> !overrun && report == NoError
      invariant !overrun ==>
                  var o := if more then Received(queue.Received(), d.View(queue), results)
                           else Outcome<LiveClient>.Outcome(d.View(queue), [], queue.Received(), whole.verdict);
                  whole == Outcome(o.state, accepted + o.accepted, o.rest, o.verdict)
      invariant !overrun && !more ==> report == ReportOf(whole.verdict)
      decreases more, queue.rxOffset
    {
      ghost var was, taken := accepted, [];
      more, report, overrun, taken := TakeFront(d, queue, results);
      accepted := accepted + taken;
      if more {
        Regroup(was, taken, Received(queue.Received(), d.View(queue), results).accepted);
      }
    }
    assert accepted + [] == accepted;
  }

  /** The objects of the client are in the state `s` gives its end of the connection. */
  ghost predicate ClientAt(s: System, d: Downloader, queue: MessageQueue)
    reads d, queue, queue.txBuffer, queue.rxBuffer
  {
    queue.Valid() && d.View(queue) == s.client && queue.Received() == s.clientBuffer
  }

  function AfterClientRead(s: System, n: nat, results: nat -> int): System
    requires n <= |s.down|
  {
    var o := Received(s.clientBuffer + s.down[..n], s.client, results);
    s.(clientBuffer := o.rest, got := s.got + o.accepted, down := s.down[n..],
       client := o.state.(complete := o.state.complete || o.verdict != Waiting))
  }

  function AfterReceiving(s: System, result: int, results: nat -> int): System {
    var n := ReadSize(s.clientBuffer, s.down, result);
    if s.client.complete then s
    else if result < 0 then s.(client := s.client.(complete := true))
    else if n == 0 then s
    else AfterClientRead(s, n, results)
  }

  /** The step of the system, in terms of the parts implemented here. */
  lemma AfterReceivingIsStep(s: System, result: int, results: nat -> int)
    ensures Step(s, ClientRead(result), results) == AfterReceiving(s, result, results)
  {
  }

  /** What was read goes into the buffer and through the frame loop; a failure of that ends the transfer. */
  method ClientTakes(ghost s: System, d: Downloader, queue: MessageQueue, bytes: seq<Byte>, results: nat -> int)
    returns (overrun: bool)
    requires ClientAt(s, d, queue) && bytes <= s.down && |s.clientBuffer| + |bytes| <= MAX_RX_BUFFER
    modifies d, queue`txEnd, queue`log, queue.txBuffer, queue`rxOffset, queue.rxBuffer
    ensures overrun <==> HasLongAnswer(s.clientBuffer + bytes)
    ensures !overrun ==> ClientAt(AfterClientRead(s, |bytes|, results), d, queue)
  {
    queue.Receive(bytes);
    assert d.View(queue) == s.client && s.down[..|bytes|] == bytes;
    var report;
    ghost var accepted;
    report, overrun, accepted := TakeFrames(d, queue, results);
    if !overrun && report != NoError {
      d.transferComplete := true;
    }
  }

  /** A read of the client makes an answer complete that does not fit the handler's buffer. */
  ghost predicate ReadsLongAnswer(s: System, result: int) {
    var n := ReadSize(s.clientBuffer, s.down, result);
    !s.client.complete && result >= 0 && n > 0 && HasLongAnswer(s.clientBuffer + s.down[..n])
  }

  /** The event loop ends once the transfer is complete; `result` is what `read()` returns if offered that much room. */
  method ClientReads(ghost s: System, d: Downloader, queue: MessageQueue, down: seq<Byte>, result: int,
                     results: nat -> int)
    returns (overrun: bool, down': seq<Byte>)
    requires ClientAt(s, d, queue) && s.down == down
    modifies d, queue`txEnd, queue`log, queue.txBuffer, queue`rxOffset, queue.rxBuffer
    ensures overrun <==> ReadsLongAnswer(s, result)
    ensures !overrun ==>
              var s' := AfterReceiving(s, result, results);
              ClientAt(s', d, queue) && s'.down == down'
  {
    overrun, down' := false, down;
    if d.transferComplete {
      return;
    }
    if result < 0 {
      d.transferComplete := true;
      return;
    }
    var room := MAX_RX_BUFFER - queue.rxOffset;
    var most := if room < |down| then room else |down|;
    var n := if result < most then result else most;
    assert n == ReadSize(s.clientBuffer, down, result);
    if n > 0 {
      overrun := ClientTakes(s, d, queue, down[..n], results);
      down' := down[n..];
    }
  }

  method ClientFlushes(ghost s: System, d: Downloader, queue: MessageQueue, up: seq<Byte>, result: int,
                       ghost results: nat -> int)
    returns (up': seq<Byte>)
    requires ClientAt(s, d, queue) && s.up == up
    modifies queue`txStart
    ensures var s' := Step(s, ClientFlush(result), results);
            ClientAt(s', d, queue) && s' == s.(client := s'.client, up := up')
  {
    ghost var pending := queue.Pending();
    var written := queue.FlushWrites(result);
    assert written == pending[..|written|];
    up' := up + written;
  }
}
