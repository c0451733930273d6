/**
 Downloads that can be completed.  For every request that can be granted and whose answer and
 file fit the ring there is a schedule of the steps of both sides, without a failing or short
 system call, after which the client holds the file; for all others there is none.  The schedule
 begins with a flush by the client, which the loop of InputWaiting never comes to.
 */
module DownloadProgress {
  import opened Frames
  import opened TxRing
  import opened Reassembly
  import opened ByteStreams
  import opened Requests
  import opened FileSending
  import opened TransferCapacity
  import opened ServerProtocol
  import opened DownloadClient
  import opened Download
  import opened DownloadSafety
  import opened DownloadBuffers
  import opened DownloadCapacity

  /** `write()` on the client's file takes all it is given. */
  ghost predicate FullWrites(results: nat -> int) {
    forall k :: results(k) >= MAX_MESSAGE_DATA
  }

  ghost predicate AllInFull(actions: seq<Action>) {
    forall i :: 0 <= i < |actions| ==> ReadsInFull(actions[i])
  }

  function Reached(disk: Disk, request: Paths, actions: seq<Action>, results: nat -> int): System
    requires Fits(request)
  {
    Run(Initial(disk, request), actions, results)
  }

  lemma OneMore(disk: Disk, request: Paths, actions: seq<Action>, a: Action, results: nat -> int)
    requires Fits(request)
    ensures Reached(disk, request, actions + [a], results) == Step(Reached(disk, request, actions, results), a, results)
    ensures AllInFull(actions) && ReadsInFull(a) ==> AllInFull(actions + [a])
  {
    assert (actions + [a])[..|actions|] == actions;
  }

  // ---------- the request ----------

  /** A server that has granted the request and a client that has been given nothing. */
  predicate Transferring(s: System) {
    && s.alive && Granted(s.server) && s.got == [] && !s.client.complete && !s.client.short
  }

  lemma RequestIsGranted(sv: LiveServer, disk: Disk, request: Paths, env: Env)
    requires Fits(request) && Grantable(disk, request) && env.openOk && Accepted(sv, disk)
    ensures var r := ServerHandles(sv, RequestMessage(request), env);
            Granted(r.0) && r.1
  {
    var p := ParseRequest(Printed(request)).value;
    RequestIsAnswered(sv, RequestMessage(request), env, p);
    DownloadAnswerSaysOkIff(sv.session, sv.disk, p, env);
  }

  lemma ServerTakesRequest(s: System, disk: Disk, request: Paths, env: Env, results: nat -> int)
    requires Fits(request) && Grantable(disk, request) && env.openOk
    requires s.alive && Accepted(s.server, disk) && s.serverBuffer == [] && s.up == Encode(RequestMessage(request))
    ensures var s' := Step(s, ServerRead(MAX_RX_BUFFER, env, 0), results);
            s'.alive && Granted(s'.server) && s'.got == s.got && s'.client == s.client
  {
    var m := RequestMessage(request);
    RequestIsGranted(s.server, disk, request, env);
    ProcessOne(m, s.server, OnServerMessage(env));
    assert s.serverBuffer + s.up[..|s.up|] == Encode(m);
    assert ReadSize(s.serverBuffer, s.up, MAX_RX_BUFFER) == |s.up|;
  }

  lemma RequestIsFlushed(disk: Disk, request: Paths, results: nat -> int)
    requires Fits(request)
    ensures var s, s' := Initial(disk, request), Step(Initial(disk, request), ClientFlush(MAX_TX_BUFFER), results);
            && s'.up == Encode(RequestMessage(request)) && s'.alive && s'.got == [] && s'.serverBuffer == []
            && s'.server == s.server && s'.client == s.client.(tx := s'.client.tx)
  {
    var frame := Encode(RequestMessage(request));
    assert [] + frame[..|frame|] == frame;
  }

  lemma RequestIsServed(disk: Disk, request: Paths, env: Env, results: nat -> int)
    returns (actions: seq<Action>)
    requires Fits(request) && Grantable(disk, request) && env.openOk
    ensures AllInFull(actions)
    ensures Transferring(Reached(disk, request, actions, results))
  {
    var flush, read := ClientFlush(MAX_TX_BUFFER), ServerRead(MAX_RX_BUFFER, env, 0);
    OneMore(disk, request, [], flush, results);
    OneMore(disk, request, [flush], read, results);
    assert [] + [flush] == [flush];
    actions := [flush] + [read];
    RequestIsFlushed(disk, request, results);
    ServerTakesRequest(Reached(disk, request, [flush], results), disk, request, env, results);
  }

  // ---------- the sender ----------

  const EVERYTHING: nat -> int := _ => MAX_MESSAGE_DATA

  /** Two flushes empty the ring and change nothing else at the server. */
  lemma RingDrains(disk: Disk, request: Paths, done: seq<Action>, results: nat -> int)
    returns (actions: seq<Action>)
    requires Fits(request) && AllInFull(done) && Transferring(Reached(disk, request, done, results))
    ensures AllInFull(actions)
    ensures var s, s' := Reached(disk, request, done, results), Reached(disk, request, actions, results);
            && Transferring(s') && s'.server.tx.pending == []
            && s'.server.session == s.server.session && s'.server.disk == s.server.disk
  {
    var flush := ServerFlush(MAX_TX_BUFFER);
    OneMore(disk, request, done, flush, results);
    OneMore(disk, request, done + [flush], flush, results);
    TwoFullFlushesDrain(Reached(disk, request, done, results).server.tx, MAX_TX_BUFFER, MAX_TX_BUFFER);
    actions := done + [flush] + [flush];
  }

  /** What the sender has left to do: nothing once the file is closed. */
  function Remaining(s: System): nat {
    var f := s.server.session.file;
    if f.Open? && f.pos <= |Source(s.server)| then 1 + |Source(s.server)| - f.pos else 0
  }

  /** With full reads and an unsaturated ring a call of the sender gets ahead in the file, or closes it. */
  lemma CallGetsAhead(s: Sender, src: seq<Byte>, readAt: nat -> int, base: nat)
    requires base <= MAX_RESPONSE_FRAME && CapacityInvariant(s, src, base) && s.open && !s.tx.Saturated()
    ensures var s' := Call(s, src, false, readAt);
            s'.open ==> s'.pos > s.pos
  {
  }

  lemma SendGetsAhead(s: System, disk: Disk, request: Paths, results: nat -> int)
    requires Fits(request) && Invariant(s, disk, request)
    requires Capacity(s, Requested(disk, request), GrantSize(request))
    requires Transferring(s) && s.server.session.file.Open? && s.server.tx.pending == []
    ensures var s' := Step(s, ServerSend(EVERYTHING), results);
            Transferring(s') && Remaining(s') < Remaining(s)
  {
    var src := Requested(disk, request);
    ServerGetsAhead(s.server, src, disk, GrantSize(request));
    assert Step(s, ServerSend(EVERYTHING), results) == s.(server := SendData(s.server, EVERYTHING));
  }

  lemma ServerGetsAhead(sv: LiveServer, src: seq<Byte>, disk: Disk, base: nat)
    requires ServerFacts(sv, src, disk) && ServingCapacity(sv, src, base) && Granted(sv)
    requires sv.session.file.Open? && sv.tx.pending == []
    ensures var sv' := SendData(sv, EVERYTHING);
            && Granted(sv') && sv'.disk == disk
            && (sv'.session.file.Open? ==> sv'.session.file.path == sv.session.file.path
                                           && sv'.session.file.pos > sv.session.file.pos)
  {
    var s := SenderOf(sv);
    CallGetsAhead(s, src, EVERYTHING, base);
    CallExtendsLog(s, src, EVERYTHING);
    var s' := Call(s, src, false, EVERYTHING);
    assert SendData(sv, EVERYTHING) == WithSender(sv, s');
    assert s'.log[0] == sv.log[0];
  }

  lemma SendsUntilClosed(disk: Disk, request: Paths, done: seq<Action>, results: nat -> int)
    returns (actions: seq<Action>)
    requires Fits(request) && AllInFull(done) && Transferring(Reached(disk, request, done, results))
    ensures AllInFull(actions)
    ensures var s := Reached(disk, request, actions, results);
            Transferring(s) && s.server.session.file.Closed? && s.server.tx.pending == []
    decreases Remaining(Reached(disk, request, done, results))
  {
    var drained := RingDrains(disk, request, done, results);
    var s := Reached(disk, request, drained, results);
    if s.server.session.file.Closed? {
      actions := drained;
    } else {
      RunKeepsInvariant(disk, request, drained, results);
      DownloadCapacity.RunKeepsCapacity(disk, request, drained, results);
      SendGetsAhead(s, disk, request, results);
      OneMore(disk, request, drained, ServerSend(EVERYTHING), results);
      actions := SendsUntilClosed(disk, request, drained + [ServerSend(EVERYTHING)], results);
    }
  }

  // ---------- the receiver ----------

  /** A client that still waits, and has written all it was given, until it sees the end mark. */
  predicate Waits(c: Client, got: seq<Message>) {
    && !c.short
    && (c.complete ==> EndMarks(got) > 0)
    && (c.open <==> EndMarks(got) == 0)
  }

  /** Messages the server queues when it has granted the request: each can be sent, and no answer refuses. */
  predicate Agreeable(log: seq<Message>) {
    AllSendable(log) && forall i :: 0 <= i < |log| && log[i].kind == FILE_READY_RECV ==> SaysOk(log[i].data)
  }

  lemma MessageKeepsWaiting(c: LiveClient, got: seq<Message>, msg: Message, result: int)
    requires Waits(c, got) && Sendable(msg) && result >= MAX_MESSAGE_DATA && EndMarks(got + [msg]) <= 1
    requires msg.kind == FILE_READY_RECV ==> SaysOk(msg.data)
    ensures Waits(HandleDownload(c, msg, result), got + [msg])
  {
    DeliveredAppend(got, [msg]);
    DeliveredOne(msg);
  }

  lemma {:induction false} ReadKeepsWaiting(b: seq<Byte>, tail: seq<Byte>, log: seq<Message>, c: LiveClient,
                                            got: seq<Message>, results: nat -> int)
    requires EncodeAll(got) + b + tail == EncodeAll(log) && EndMarks(log) <= 1
    requires Agreeable(log) && FullWrites(results) && Waits(c, got)
    ensures var o := Process(b, c, OnClientMessage(results));
            Waits(o.state, got + o.accepted)
    decreases |b|
  {
    if !FrontOf(b).Complete? {
      assert got + [] == got;
    } else {
      var msg := FrontOf(b).msg;
      var rest := b[FrameSize(msg)..];
      var c' := ClientHandles(c, msg, results).0;
      TakeOne(got, b, tail, log, msg);
      assert log[|got|] == msg;
      MessageKeepsWaiting(c, got, msg, results(c.writeCalls));
      ReadKeepsWaiting(rest, tail, log, c', got + [msg], results);
      Regroup(got, [msg], Process(rest, c', OnClientMessage(results)).accepted);
    }
  }

  /** The log of a session that lives and has granted the request. */
  lemma LogIsAgreeable(s: System, disk: Disk, request: Paths)
    requires Fits(request) && Invariant(s, disk, request) && Answered(s.server, disk, request)
    requires Granted(s.server)
    ensures Agreeable(s.server.log) && EndMarks(s.server.log) <= 1
  {
  }

  /** A client that has not seen the end mark of a drained ring finds bytes to read, and reads some. */
  lemma ReadGetsAhead(s: System, disk: Disk, request: Paths, results: nat -> int)
    requires Fits(request) && Invariant(s, disk, request) && Answered(s.server, disk, request)
    requires Granted(s.server) && s.server.tx.pending == [] && FullWrites(results)
    requires Waits(s.client, s.got) && EndMarks(s.got) == 0 && EndMarks(s.server.log) > 0
    ensures var s' := Step(s, ClientRead(MAX_RX_BUFFER), results);
            && s'.server == s.server && |s'.down| < |s.down| && Waits(s'.client, s'.got)
  {
    TransportHolds(s, disk, request);
    LogIsAgreeable(s, disk, request);
    SomethingIsLeft(s, disk, request);
    var n := ReadSize(s.clientBuffer, s.down, MAX_RX_BUFFER);
    ReceiveKeepsClient(s, n, results, disk, request);
    Stretch(EncodeAll(s.got), s.clientBuffer, s.down, n, s.server.tx.pending);
    ReadKeepsWaiting(s.clientBuffer + s.down[..n], s.down[n..] + s.server.tx.pending, s.server.log, s.client, s.got,
                     results);
  }

  lemma SomethingIsLeft(s: System, disk: Disk, request: Paths)
    requires Fits(request) && Invariant(s, disk, request)
    requires s.server.tx.pending == [] && EndMarks(s.got) == 0 && EndMarks(s.server.log) > 0
    ensures s.down != []
  {
    if s.down == [] {
      DrainedIsDelivered(s, disk, request);
    }
  }

  lemma ReadsUntilEnd(disk: Disk, request: Paths, done: seq<Action>, results: nat -> int)
    returns (actions: seq<Action>)
    requires Fits(request) && AllInFull(done) && FullWrites(results)
    requires var s := Reached(disk, request, done, results);
             && Granted(s.server) && s.server.tx.pending == [] && EndMarks(s.server.log) > 0
             && Waits(s.client, s.got)
    ensures AllInFull(actions)
    ensures var s := Reached(disk, request, actions, results);
            EndMarks(s.got) > 0 && !s.client.short
    decreases |Reached(disk, request, done, results).down|
  {
    var s := Reached(disk, request, done, results);
    if EndMarks(s.got) > 0 {
      actions := done;
    } else {
      RunKeepsInvariant(disk, request, done, results);
      RunKeepsAnswered(disk, request, done, results);
      ReadGetsAhead(s, disk, request, results);
      OneMore(disk, request, done, ClientRead(MAX_RX_BUFFER), results);
      actions := ReadsUntilEnd(disk, request, done + [ClientRead(MAX_RX_BUFFER)], results);
    }
  }

  // ---------- which downloads can be completed ----------

  /** After these actions the client has seen the end mark and holds the whole file, and no copy has left its buffer. */
  ghost predicate Completed(disk: Disk, request: Paths, actions: seq<Action>, results: nat -> int)
    requires Fits(request)
  {
    var s := Reached(disk, request, actions, results);
    && AllInFull(actions) && EndMarks(s.got) > 0 && s.client.local == Requested(disk, request)
    && StayInClientBuffer(s.got)
  }

  ghost predicate CanBeCompleted(disk: Disk, request: Paths)
    requires Fits(request)
  {
    exists actions: seq<Action>, results: nat -> int :: Completed(disk, request, actions, results)
  }

  /** Whoever has seen the end mark was granted the request, and its copy of the answer stays where its length says. */
  lemma CompletedWasGranted(disk: Disk, request: Paths, actions: seq<Action>, results: nat -> int)
    requires Fits(request) && AllInFull(actions)
    requires EndMarks(Reached(disk, request, actions, results).got) > 0
    ensures Grantable(disk, request) && Completes(GrantSize(request), |Requested(disk, request)|)
    ensures StayInClientBuffer(Reached(disk, request, actions, results).got) <==>
            GrantSize(request) < MAX_RESPONSE_FRAME
  {
    var s := Reached(disk, request, actions, results);
    RunKeepsInvariant(disk, request, actions, results);
    RunKeepsAnswered(disk, request, actions, results);
    DownloadCapacity.RunKeepsCapacity(disk, request, actions, results);
    TransitIsTheUnreadLog(s);
    PrefixEndMarks(s.got, s.server.log);
    GrantedStaysIff(s, disk, request);
    if !Completes(GrantSize(request), |Requested(disk, request)|) {
      UnfittingDownloadNeverCompletes(disk, request, actions, results);
    }
  }

  /** The schedule: the request is served, the sender called until it closes the file, the client reads to the end. */
  lemma CompletingSchedule(disk: Disk, request: Paths, env: Env, results: nat -> int)
    returns (actions: seq<Action>)
    requires Fits(request) && Grantable(disk, request) && env.openOk && FullWrites(results)
    requires GrantSize(request) < MAX_RESPONSE_FRAME && Completes(GrantSize(request), |Requested(disk, request)|)
    ensures Completed(disk, request, actions, results)
  {
    var asked := RequestIsServed(disk, request, env, results);
    var sent := SendsUntilClosed(disk, request, asked, results);
    RunKeepsInvariant(disk, request, sent, results);
    GrantedDownloadEndsIff(disk, request, sent, results);
    actions := ReadsUntilEnd(disk, request, sent, results);
    CompletedWasGranted(disk, request, actions, results);
    DownloadIsPrefixAndCompletionIsWhole(disk, request, actions, results);
  }

  /**
   A download can be completed, without a copy that leaves its buffer, if and only if the request names
   a regular file, the answer leaves a byte of the client's buffer free, and the sizes of answer and
   file satisfy `Completes`: all of it is known before the request is sent.
   */
  lemma DownloadCanBeCompletedIff(disk: Disk, request: Paths)
    requires Fits(request)
    ensures CanBeCompleted(disk, request) <==>
            && Grantable(disk, request) && GrantSize(request) < MAX_RESPONSE_FRAME
            && Completes(GrantSize(request), |Requested(disk, request)|)
  {
    if && Grantable(disk, request) && GrantSize(request) < MAX_RESPONSE_FRAME
       && Completes(GrantSize(request), |Requested(disk, request)|) {
      var actions := CompletingSchedule(disk, request, Env(true, [], true, [], 0, true), EVERYTHING);
      assert Completed(disk, request, actions, EVERYTHING);
    }
    if CanBeCompleted(disk, request) {
      var actions: seq<Action>, results: nat -> int :| Completed(disk, request, actions, results);
      CompletedWasGranted(disk, request, actions, results);
    }
  }
}
