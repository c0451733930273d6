/**
 The server's steps of a download on the real objects: the frame loop with the dispatcher as its
 handler, which queues answers on the very queue the loop reads from, the sender, the flushes and
 the end of the session.  Each method does what its step of the system in Download does.
 */
module ServerLoop {
  import opened Frames
  import opened Reassembly
  import opened ByteStreams
  import opened HandlerBuffers
  import opened ServerProtocol
  import opened MessageQueues
  import opened FileTransferServer
  import opened Download
  import opened DownloadSafety

  // ---------- the server ----------

  /** Some complete message in the buffer does not fit the handlers' buffer. */
  ghost predicate HasOverlong(b: seq<Byte>) {
    exists i :: 0 <= i < |Parse(b).msgs| && !StaysInServerBuffer(Parse(b).msgs[i])
  }

  /** The front of the buffer is such a message. */
  predicate StartsOverlong(b: seq<Byte>) {
    FrontOf(b).Complete? && !StaysInServerBuffer(FrontOf(b).msg)
  }

  /** `rest` is `b` without its front frame. */
  predicate RestOf(b: seq<Byte>, rest: seq<Byte>) {
    FrontOf(b).Complete? && rest == b[FrameSize(FrontOf(b).msg)..]
  }

  lemma OverlongRest(b: seq<Byte>, m: Message)
    requires FrontOf(b) == Complete(m)
    ensures !StaysInServerBuffer(m) ==> HasOverlong(b)
    ensures HasOverlong(b[FrameSize(m)..]) ==> HasOverlong(b)
  {
    var rest := Parse(b[FrameSize(m)..]).msgs;
    assert Parse(b).msgs == [m] + rest;
    assert Parse(b).msgs[0] == m;
    if HasOverlong(b[FrameSize(m)..]) {
      var i :| 0 <= i < |rest| && !StaysInServerBuffer(rest[i]);
      assert Parse(b).msgs[i + 1] == rest[i];
    }
  }

  lemma OverlongFront(b: seq<Byte>, rest: seq<Byte>)
    ensures StartsOverlong(b) ==> HasOverlong(b)
    ensures RestOf(b, rest) && HasOverlong(rest) ==> HasOverlong(b)
    ensures RestOf(b, rest) ==> |rest| < |b|
  {
    if FrontOf(b).Complete? {
      OverlongRest(b, FrontOf(b).msg);
    }
  }

  /** What the system calls made for one message give; the handler may fork a child on a pseudo-terminal. */
  datatype Calls = Calls(env: Env, childPid: int, ptyFd: nat)

  /** The server with a count of the messages it was given in a read. */
  datatype Counted = Counted(server: LiveServer, served: nat)

  /** `calls(k)` are the outcomes for the `k`-th message. */
  function CountedHandles(s: Counted, m: Message, calls: nat -> Calls): (Counted, bool) {
    var r := ServerHandles(s.server, m, calls(s.served).env);
    (Counted(r.0, s.served + 1), r.1)
  }

  function OnServerMessages(calls: nat -> Calls): (Counted, Message) -> (Counted, bool) {
    (s: Counted, m: Message) => CountedHandles(s, m, calls)
  }

  function Served(b: seq<Byte>, s: Counted, calls: nat -> Calls): Outcome<Counted> {
    Process(b, s, OnServerMessages(calls))
  }

  /** The count makes no difference where all messages of a read meet with the same outcomes. */
  lemma {:induction false} ServedAlike(b: seq<Byte>, s: Counted, calls: nat -> Calls, env: Env)
    requires forall k :: calls(k).env == env
    ensures var o, p := Served(b, s, calls), Process(b, s.server, OnServerMessage(env));
            o.state.server == p.state && o.accepted == p.accepted && o.rest == p.rest && o.verdict == p.verdict
    decreases |b|
  {
    if !FrontOf(b).Complete? {
    } else {
      var m := FrontOf(b).msg;
      var (s', ok) := CountedHandles(s, m, calls);
      if ok {
        ServedAlike(b[FrameSize(m)..], s', calls, env);
      }
    }
  }

  /** The dispatcher, seen from the receive side of the queue it may write to. */
  method ServeMessage(session: ClientSession, queue: MessageQueue, fs: FileSystem, msg: Message, env: Env,
                      childPid: int, ptyFd: nat)
    returns (ok: bool, overrun: bool)
    requires queue.Valid() && ValidServer(ServerOf(session, queue, fs))
    modifies session`pid, session`ptyMasterFd, session`fileFd, session`connectionType, fs
    modifies queue`txEnd, queue`log, queue.txBuffer
    ensures queue.Valid() && ValidServer(ServerOf(session, queue, fs))
    ensures queue.Received() == old(queue.Received()) && queue.rxOffset == old(queue.rxOffset)
    ensures overrun <==> !StaysInServerBuffer(msg)
    ensures !overrun ==>
              (ServerOf(session, queue, fs), ok) == ServerHandles(old(ServerOf(session, queue, fs)), msg, env)
  {
    HandleKeepsValid(ServerOf(session, queue, fs), msg, env);
    ok, overrun := HandleMessage(session, queue, fs, msg, env, childPid, ptyFd);
  }

  /** What an iteration of the frame loop leaves: `more` tells whether the loop goes on. */
  ghost predicate Iterated(was: Outcome<Counted>, more: bool, report: ReadReport, taken: seq<Message>,
                           now: Outcome<Counted>, s: Counted, buffer: seq<Byte>) {
    if more then was == Outcome(now.state, taken + now.accepted, now.rest, now.verdict)
    else taken == [] && ReportOf(was.verdict) == report && was == Outcome(s, [], buffer, was.verdict)
  }

  /** Where the loop stands: `whole` is what the recursive loop gives, `now` what it gives from here on. */
  ghost predicate SoFar(whole: Outcome<Counted>, more: bool, report: ReadReport, accepted: seq<Message>,
                        now: Outcome<Counted>, s: Counted, buffer: seq<Byte>) {
    if more then report == NoError && whole == Outcome(now.state, accepted + now.accepted, now.rest, now.verdict)
    else report == ReportOf(whole.verdict) && whole == Outcome(s, accepted, buffer, whole.verdict)
  }

  lemma SoFarStep(whole: Outcome<Counted>, accepted: seq<Message>, was: Outcome<Counted>, more: bool,
                  report: ReadReport, taken: seq<Message>, now: Outcome<Counted>, s: Counted, buffer: seq<Byte>)
    requires whole == Outcome(was.state, accepted + was.accepted, was.rest, was.verdict)
    requires Iterated(was, more, report, taken, now, s, buffer) && (more ==> report == NoError)
    ensures SoFar(whole, more, report, accepted + taken, now, s, buffer)
  {
    Regroup(accepted, taken, now.accepted);
  }

  /** A buffer without a header ends the loop. */
  lemma SoFarEnds(whole: Outcome<Counted>, report: ReadReport, accepted: seq<Message>, s: Counted, buffer: seq<Byte>,
                  calls: nat -> Calls)
    requires SoFar(whole, true, report, accepted, Served(buffer, s, calls), s, buffer) && |buffer| < HEADER_SIZE
    ensures SoFar(whole, false, report, accepted, Served(buffer, s, calls), s, buffer)
  {
    assert accepted + [] == accepted;
  }

  function StopReport(front: Front): ReadReport
    requires !front.Complete?
  {
    match front
    case BadMagic => InvalidProtocolMagic
    case Oversize => FrameTooLarge
    case Incomplete => NoError
  }

  /** What one iteration does: the front is given to the dispatcher and removed if accepted, or nothing happens. */
  predicate FrontHandled(b: seq<Byte>, sv: LiveServer, env: Env, more: bool, report: ReadReport, b': seq<Byte>,
                         sv': LiveServer) {
    match FrontOf(b)
    case Complete(m) =>
      && (sv', more) == ServerHandles(sv, m, env) && b' == (if more then b[FrameSize(m)..] else b)
      && report == (if more then NoError else MessageHandlerError)
    case front =>
      !more && sv' == sv && b' == b && report == StopReport(front)
  }

  /** The messages an iteration takes off the buffer, and how many it gives to the dispatcher. */
  function TakenFront(b: seq<Byte>, more: bool): seq<Message> {
    if more && FrontOf(b).Complete? then [FrontOf(b).msg] else []
  }

  function Given(b: seq<Byte>): nat {
    if FrontOf(b).Complete? then 1 else 0
  }

  lemma StopIterates(b: seq<Byte>, s: Counted, calls: nat -> Calls)
    requires !FrontOf(b).Complete?
    ensures Iterated(Served(b, s, calls), false, StopReport(FrontOf(b)), [], Served(b, s, calls), s, b)
  {
  }

  lemma CompleteIterates(b: seq<Byte>, s: Counted, calls: nat -> Calls, m: Message, sv': LiveServer, ok: bool)
    requires FrontOf(b) == Complete(m) && (sv', ok) == ServerHandles(s.server, m, calls(s.served).env)
    ensures var s', b' := Counted(sv', s.served + 1), if ok then b[FrameSize(m)..] else b;
            Iterated(Served(b, s, calls), ok, if ok then NoError else MessageHandlerError, if ok then [m] else [],
                     Served(b', s', calls), s', b')
  {
    assert CountedHandles(s, m, calls) == (Counted(sv', s.served + 1), ok);
  }

  lemma HandlingIterates(b: seq<Byte>, s: Counted, calls: nat -> Calls, more: bool, report: ReadReport,
                         b': seq<Byte>, sv': LiveServer)
    requires FrontHandled(b, s.server, calls(s.served).env, more, report, b', sv')
    ensures var s' := Counted(sv', s.served + Given(b));
            Iterated(Served(b, s, calls), more, report, TakenFront(b, more), Served(b', s', calls), s', b')
    ensures more ==> RestOf(b, b')
  {
    match FrontOf(b)
    case Complete(m) => CompleteIterates(b, s, calls, m, sv', more);
    case _ => StopIterates(b, s, calls);
  }

  /** A complete message is delivered, and removed if it was accepted. */
  method ServeComplete(session: ClientSession, queue: MessageQueue, fs: FileSystem, msg: Message, calls: Calls)
    returns (ok: bool, overrun: bool)
    requires queue.Valid() && ValidServer(ServerOf(session, queue, fs))
    requires queue.rxOffset >= HEADER_SIZE && FrontOf(queue.Received()) == Complete(msg)
    modifies session`pid, session`ptyMasterFd, session`fileFd, session`connectionType, fs
    modifies queue`txEnd, queue`log, queue.txBuffer, queue`rxOffset, queue.rxBuffer
    ensures queue.Valid() && ValidServer(ServerOf(session, queue, fs))
    ensures overrun <==> !StaysInServerBuffer(msg)
    ensures !overrun ==>
              (ServerOf(session, queue, fs), ok) == ServerHandles(old(ServerOf(session, queue, fs)), msg, calls.env)
    ensures queue.Received() ==
            if ok && !overrun then old(queue.Received())[FrameSize(msg)..] else old(queue.Received())
    ensures queue.rxOffset == |queue.Received()|
  {
    ok, overrun := ServeMessage(session, queue, fs, msg, calls.env, calls.childPid, calls.ptyFd);
    if ok && !overrun {
      ghost var sv := ServerOf(session, queue, fs);
      queue.DropFront(FrameSize(msg));
      assert ServerOf(session, queue, fs) == sv;
    }
  }

  /** One iteration of the frame loop: the front is delivered and removed, or the loop is left. */
  method ServeFront(session: ClientSession, queue: MessageQueue, fs: FileSystem, calls: Calls)
    returns (more: bool, report: ReadReport, overrun: bool, given: nat)
    requires queue.Valid() && ValidServer(ServerOf(session, queue, fs)) && queue.rxOffset >= HEADER_SIZE
    modifies session`pid, session`ptyMasterFd, session`fileFd, session`connectionType, fs
    modifies queue`txEnd, queue`log, queue.txBuffer, queue`rxOffset, queue.rxBuffer
    ensures queue.Valid() && ValidServer(ServerOf(session, queue, fs))
    ensures overrun ==> !more && StartsOverlong(old(queue.Received()))
    ensures given == Given(old(queue.Received()))
    ensures !overrun ==>
              FrontHandled(old(queue.Received()), old(ServerOf(session, queue, fs)), calls.env, more, report,
                           queue.Received(), ServerOf(session, queue, fs))
  {
    more, report, overrun, given := false, NoError, false, 0;
    var front := queue.PeekFrame();
    if !front.Complete? {
      report := StopReport(front);
      return;
    }
    given := 1;
    more, overrun := ServeComplete(session, queue, fs, front.msg, calls);
    more := more && !overrun;
    report := if more then NoError else MessageHandlerError;
  }

  /** The same in terms of the recursive loop: it goes on with the rest, or this is where it ends. */
  method ServeNext(session: ClientSession, queue: MessageQueue, fs: FileSystem, n: nat, calls: nat -> Calls)
    returns (more: bool, report: ReadReport, overrun: bool, n': nat, ghost taken: seq<Message>)
    requires queue.Valid() && ValidServer(ServerOf(session, queue, fs)) && queue.rxOffset >= HEADER_SIZE
    modifies session`pid, session`ptyMasterFd, session`fileFd, session`connectionType, fs
    modifies queue`txEnd, queue`log, queue.txBuffer, queue`rxOffset, queue.rxBuffer
    ensures queue.Valid() && ValidServer(ServerOf(session, queue, fs))
    ensures overrun ==> StartsOverlong(old(queue.Received()))
    ensures more ==> !overrun && report == NoError && RestOf(old(queue.Received()), queue.Received())
    ensures !overrun ==>
              Iterated(Served(old(queue.Received()), Counted(old(ServerOf(session, queue, fs)), n), calls),
                       more, report, taken, Served(queue.Received(), Counted(ServerOf(session, queue, fs), n'), calls),
                       Counted(ServerOf(session, queue, fs), n'), queue.Received())
  {
    ghost var buffer, before := queue.Received(), ServerOf(session, queue, fs);
    var given;
    more, report, overrun, given := ServeFront(session, queue, fs, calls(n));
    n', taken := n + given, TakenFront(buffer, more);
    if !overrun {
      HandlingIterates(buffer, Counted(before, n), calls, more, report, queue.Received(),
                       ServerOf(session, queue, fs));
    }
  }

  /** The frame loop of the server, with its dispatcher as the handler; `served` counts the messages it was given. */
  method ServeFrames(session: ClientSession, queue: MessageQueue, fs: FileSystem, calls: nat -> Calls)
    returns (report: ReadReport, overrun: bool, served: nat, ghost accepted: seq<Message>)
    requires queue.Valid() && ValidServer(ServerOf(session, queue, fs))
    modifies session`pid, session`ptyMasterFd, session`fileFd, session`connectionType, fs
    modifies queue`txEnd, queue`log, queue.txBuffer, queue`rxOffset, queue.rxBuffer
    ensures queue.Valid() && ValidServer(ServerOf(session, queue, fs))
    ensures overrun ==> HasOverlong(old(queue.Received()))
    ensures !overrun ==>
              var o := Served(old(queue.Received()), Counted(old(ServerOf(session, queue, fs)), 0), calls);
              && o == Outcome(Counted(ServerOf(session, queue, fs), served), accepted, queue.Received(), o.verdict)
              && report == ReportOf(o.verdict)
  {
    ghost var before := queue.Received();
    ghost var s := Counted(ServerOf(session, queue, fs), 0);
    ghost var whole := Served(before, s, calls);
    report, overrun, served, accepted := NoError, false, 0, [];
    var more := true;
    while more && queue.rxOffset >= HEADER_SIZE
      invariant queue.Valid() && ValidServer(ServerOf(session, queue, fs))
      invariant s == Counted(ServerOf(session, queue, fs), served)
      invariant (more && HasOverlong(queue.Received())) || overrun ==> HasOverlong(before)
      invariant more ==> !overrun
      invariant !overrun ==>
                  SoFar(whole, more, report, accepted, Served(queue.Received(), s, calls), s, queue.Received())
      decreases more, queue.rxOffset
    {
      ghost var was, buffer, taken := Served(queue.Received(), s, calls), queue.Received(), [];
      more, report, overrun, served, taken := ServeNext(session, queue, fs, served, calls);
      OverlongFront(buffer, queue.Received());
      s := Counted(ServerOf(session, queue, fs), served);
      if !overrun {
        SoFarStep(whole, accepted, was, more, report, taken, Served(queue.Received(), s, calls), s, queue.Received());
      }
      accepted := accepted + taken;
    }
    if more {
      SoFarEnds(whole, report, accepted, s, queue.Received(), calls);
    }
  }

  /** The objects of the server are in the state `s` gives its end of the connection. */
  ghost predicate ServerAt(s: System, session: ClientSession, queue: MessageQueue, fs: FileSystem)
    reads session, queue, queue.txBuffer, queue.rxBuffer, fs
  {
    queue.Valid() && ServerOf(session, queue, fs) == s.server && queue.Received() == s.serverBuffer
  }

  /** Whether the session lives, whether a handler has overrun its buffer, and the two channels. */
  datatype Net = Net(alive: bool, overrun: bool, up: seq<Byte>, down: seq<Byte>)

  predicate Matches(s: System, net: Net) {
    s.alive == net.alive && s.up == net.up && s.down == net.down
  }

  /** The error callback. */
  method ServerEnds(ghost s: System, session: ClientSession, queue: MessageQueue, fs: FileSystem, down: seq<Byte>,
                    lastWrite: int)
    returns (down': seq<Byte>)
    requires ServerAt(s, session, queue, fs) && s.down == down
    modifies session`fileFd, queue`txStart, queue`txEnd, queue`log, queue.txBuffer
    ensures ServerAt(Destroy(s, lastWrite), session, queue, fs) && Destroy(s, lastWrite).down == down'
  {
    var last := EndSession(session, queue, lastWrite);
    down' := down + last;
  }

  /**
   What was read goes into the buffer and through the frame loop.  The step of the system knows one set
   of outcomes for all messages of a read.
   */
  method ServerTakes(ghost s: System, session: ClientSession, queue: MessageQueue, fs: FileSystem, bytes: seq<Byte>,
                     env: Env, childPid: int, ptyFd: nat)
    returns (report: ReadReport, overrun: bool)
    requires ServerAt(s, session, queue, fs) && bytes <= s.up && |s.serverBuffer| + |bytes| <= MAX_RX_BUFFER
    modifies session`pid, session`ptyMasterFd, session`fileFd, session`connectionType, fs
    modifies queue`txEnd, queue`log, queue.txBuffer, queue`rxOffset, queue.rxBuffer
    ensures overrun ==> HasOverlong(s.serverBuffer + bytes)
    ensures !overrun ==>
              && ServerAt(AfterServerRead(s, |bytes|, env), session, queue, fs)
              && report == ReportOf(Process(s.serverBuffer + bytes, s.server, OnServerMessage(env)).verdict)
  {
    queue.Receive(bytes);
    assert ServerOf(session, queue, fs) == s.server;
    var calls := (_: nat) => Calls(env, childPid, ptyFd);
    ServedAlike(s.serverBuffer + bytes, Counted(s.server, 0), calls, env);
    var served;
    ghost var accepted;
    report, overrun, served, accepted := ServeFrames(session, queue, fs, calls);
    assert s.up[..|bytes|] == bytes;
  }

  /** A read that brought `n` bytes: a pass of the frame loop, and the error callback if it failed. */
  function AfterTaking(s: System, n: nat, env: Env, lastWrite: int): System
    requires n <= |s.up|
  {
    var s' := AfterServerRead(s, n, env);
    if Process(s.serverBuffer + s.up[..n], s.server, OnServerMessage(env)).verdict == Waiting then s'
    else Destroy(s', lastWrite)
  }

  function AfterReading(s: System, result: int, env: Env, lastWrite: int): System {
    var n := ReadSize(s.serverBuffer, s.up, result);
    if result < 0 then Destroy(s, lastWrite) else if n == 0 then s else AfterTaking(s, n, env, lastWrite)
  }

  /** The step of the system, in terms of the parts implemented here. */
  lemma AfterReadingIsStep(s: System, result: int, env: Env, lastWrite: int, results: nat -> int)
    requires s.alive
    ensures Step(s, ServerRead(result, env, lastWrite), results) == AfterReading(s, result, env, lastWrite)
  {
  }

  lemma DestroyKeepsChannels(s: System, lastWrite: int)
    ensures Destroy(s, lastWrite).up == s.up && !Destroy(s, lastWrite).alive
  {
  }

  method ServerReadsSome(ghost s: System, session: ClientSession, queue: MessageQueue, fs: FileSystem,
                         up: seq<Byte>, down: seq<Byte>, n: nat, env: Env, lastWrite: int, childPid: int, ptyFd: nat)
    returns (net: Net)
    requires ServerAt(s, session, queue, fs) && s.alive && s.up == up && s.down == down
    requires n <= |up| && |s.serverBuffer| + n <= MAX_RX_BUFFER
    modifies session`pid, session`ptyMasterFd, session`fileFd, session`connectionType, fs
    modifies queue`txStart, queue`txEnd, queue`log, queue.txBuffer, queue`rxOffset, queue.rxBuffer
    ensures net.overrun ==> HasOverlong(s.serverBuffer + up[..n])
    ensures !net.overrun ==>
              var s' := AfterTaking(s, n, env, lastWrite);
              ServerAt(s', session, queue, fs) && Matches(s', net)
  {
    var report, overrun := ServerTakes(s, session, queue, fs, up[..n], env, childPid, ptyFd);
    net := Net(true, overrun, up[n..], down);
    if !overrun && report != NoError {
      ghost var s' := AfterServerRead(s, n, env);
      DestroyKeepsChannels(s', lastWrite);
      var down' := ServerEnds(s', session, queue, fs, down, lastWrite);
      net := net.(alive := false, down := down');
    }
  }

  /** The socket is readable; `result` is what `read()` returns if it is offered that much room. */
  method ServerReads(ghost s: System, session: ClientSession, queue: MessageQueue, fs: FileSystem,
                     up: seq<Byte>, down: seq<Byte>, result: int, env: Env, lastWrite: int, childPid: int, ptyFd: nat)
    returns (net: Net)
    requires ServerAt(s, session, queue, fs) && s.alive && s.up == up && s.down == down
    modifies session`pid, session`ptyMasterFd, session`fileFd, session`connectionType, fs
    modifies queue`txStart, queue`txEnd, queue`log, queue.txBuffer, queue`rxOffset, queue.rxBuffer
    ensures net.overrun ==> HasOverlong(s.serverBuffer + up[..ReadSize(s.serverBuffer, up, result)])
    ensures !net.overrun ==>
              var s' := AfterReading(s, result, env, lastWrite);
              ServerAt(s', session, queue, fs) && Matches(s', net)
  {
    if result < 0 {
      DestroyKeepsChannels(s, lastWrite);
      var down' := ServerEnds(s, session, queue, fs, down, lastWrite);
      return Net(false, false, up, down');
    }
    var room := MAX_RX_BUFFER - queue.rxOffset;
    var most := if room < |up| then room else |up|;
    var n := if result < most then result else most;
    assert n == ReadSize(s.serverBuffer, up, result);
    if n == 0 {
      return Net(true, false, up, down);
    }
    net := ServerReadsSome(s, session, queue, fs, up, down, n, env, lastWrite, childPid, ptyFd);
  }

  /** The send call of the event loop, made only while a file is open and the queue is unsaturated. */
  method ServerSends(ghost s: System, session: ClientSession, queue: MessageQueue, fs: FileSystem, readAt: nat -> int,
                     ghost results: nat -> int)
    requires ServerAt(s, session, queue, fs) && s.alive
    modifies session`fileFd, session`fileTransferStarted, queue`txEnd, queue`log, queue.txBuffer
    ensures var s' := Step(s, ServerSend(readAt), results);
            ServerAt(s', session, queue, fs) && s' == s.(server := s'.server)
  {
    if session.fileFd.Closed? {
      return;
    }
    var saturated := queue.IsSaturated();
    if !saturated {
      FileTransferServer.SendData(session, queue, fs, readAt);
    }
  }

  method ServerFlushes(ghost s: System, session: ClientSession, queue: MessageQueue, fs: FileSystem, down: seq<Byte>,
                       result: int, ghost results: nat -> int)
    returns (down': seq<Byte>)
    requires ServerAt(s, session, queue, fs) && s.alive && s.down == down
    modifies queue`txStart
    ensures var s' := Step(s, ServerFlush(result), results);
            ServerAt(s', session, queue, fs) && s' == s.(server := s'.server, down := down')
  {
    ghost var pending := queue.Pending();
    var written := queue.FlushWrites(result);
    assert written == pending[..|written|];
    down' := down + written;
  }
}
