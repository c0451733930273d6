/**
 A download on the real objects of client and server, step by step along any schedule: they stay
 in the state of the system in Download, of which the safety and capacity results speak.
 */
module DownloadRun {
  import opened Frames
  import opened TxRing
  import opened Reassembly
  import opened ByteStreams
  import opened Requests
  import opened HandlerBuffers
  import opened ServerProtocol
  import opened DownloadClient
  import opened MessageQueues
  import opened FileTransferServer
  import opened FileTransferClient
  import opened Download
  import opened DownloadSafety
  import opened DownloadBuffers
  import opened ServerLoop
  import opened ClientLoop

  // ---------- overruns ----------

  lemma AheadInLog(log: seq<Message>, taken: seq<Message>, ms: seq<Message>, i: nat)
    requires taken + ms <= log && i < |ms|
    ensures |taken| + i < |log| && ms[i] == log[|taken| + i]
  {
    assert ms[i] == (taken + ms)[|taken| + i];
  }

  /** The server is only ever given the request and an acknowledgement, and both fit its buffer. */
  lemma ServerNeverOverruns(s: System, n: nat, disk: Disk, request: Paths)
    requires Fits(request) && Invariant(s, disk, request) && n <= |s.up|
    ensures !HasOverlong(s.serverBuffer + s.up[..n])
  {
    var ms := Parse(s.serverBuffer + s.up[..n]).msgs;
    CompleteMessagesAreQueued(s.client.log, s.served, s.serverBuffer, s.up, s.client.tx, n);
    forall i | 0 <= i < |ms|
      ensures StaysInServerBuffer(ms[i])
    {
      AheadInLog(s.client.log, s.served, ms, i);
    }
  }

  /** This step of the client makes a long answer complete. */
  ghost predicate Overruns(s: System, a: Action) {
    a.ClientRead? && ReadsLongAnswer(s, a.result)
  }

  /** So does a step after which the client has been given one, and not before. */
  lemma OverrunGivesLongAnswer(s: System, a: Action, results: nat -> int)
    ensures SomeLongAnswer(Step(s, a, results).got) <==> SomeLongAnswer(s.got) || Overruns(s, a)
  {
    if a.ClientRead? {
      var n := ReadSize(s.clientBuffer, s.down, a.result);
      var b := s.clientBuffer + s.down[..n];
      AcceptingPassIsParse(b, s.client, OnClientMessage(results));
      LongAnswerIn(s.got, Parse(b).msgs);
    }
  }

  lemma LongAnswersStayNext(disk: Disk, request: Paths, actions: seq<Action>, results: nat -> int)
    requires Fits(request) && actions != []
    requires SomeLongAnswer(Run(Initial(disk, request), actions[..|actions| - 1], results).got)
    ensures SomeLongAnswer(Run(Initial(disk, request), actions, results).got)
  {
    var last := |actions| - 1;
    OverrunGivesLongAnswer(Run(Initial(disk, request), actions[..last], results), actions[last], results);
  }

  lemma {:induction false} LongAnswersStay(disk: Disk, request: Paths, actions: seq<Action>, n: nat,
                                           results: nat -> int)
    requires Fits(request) && n <= |actions|
    requires SomeLongAnswer(Run(Initial(disk, request), actions[..n], results).got)
    ensures SomeLongAnswer(Run(Initial(disk, request), actions, results).got)
    decreases |actions|
  {
    if n == |actions| {
      assert actions[..n] == actions;
    } else {
      var last := |actions| - 1;
      assert actions[..last][..n] == actions[..n];
      LongAnswersStay(disk, request, actions[..last], n, results);
      LongAnswersStayNext(disk, request, actions, results);
    }
  }

  lemma OnlyTheFirstIsLong(got: seq<Message>, log: seq<Message>)
    requires got <= log && NoAnswersFrom(log, 1)
    requires log != [] && IsAnswer(log[0]) ==> log[0].kind == FILE_READY_RECV
    ensures SomeLongAnswer(got) <==> !StayInClientBuffer(got)
  {
    if i :| 0 <= i < |got| && !StaysInClientBuffer(got[i]) {
      assert IsAnswer(log[i]) && got[i] == log[i];
      assert IsLongAnswer(got[i]);
    }
  }

  /** The only answer a client is ever given is the one to its download request. */
  lemma LongAnswerLeavesBuffer(disk: Disk, request: Paths, actions: seq<Action>, results: nat -> int)
    requires Fits(request)
    ensures var got := Run(Initial(disk, request), actions, results).got;
            SomeLongAnswer(got) <==> !StayInClientBuffer(got)
  {
    var s := Run(Initial(disk, request), actions, results);
    RunKeepsInvariant(disk, request, actions, results);
    RunKeepsAnswered(disk, request, actions, results);
    RunKeepsAnswers(disk, request, actions, results);
    TransportHolds(s, disk, request);
    OnlyTheFirstIsLong(s.got, s.server.log);
  }

  // ---------- one step ----------

  /** Both ends and the channels between them are in the state `s`. */
  ghost predicate At(s: System, session: ClientSession, serverQueue: MessageQueue, fs: FileSystem,
                     d: Downloader, clientQueue: MessageQueue, net: Net)
    reads session, serverQueue, serverQueue.txBuffer, serverQueue.rxBuffer, fs
    reads d, clientQueue, clientQueue.txBuffer, clientQueue.rxBuffer
  {
    ServerAt(s, session, serverQueue, fs) && ClientAt(s, d, clientQueue) && Matches(s, net)
  }

  predicate IsServerStep(a: Action) {
    a.ServerRead? || a.ServerSend? || a.ServerFlush?
  }

  /** A step of the server changes nothing of the client. */
  lemma ServerStepFrame(s: System, a: Action, results: nat -> int)
    requires IsServerStep(a)
    ensures var s' := Step(s, a, results);
            s'.client == s.client && s'.clientBuffer == s.clientBuffer && (!s.alive ==> s' == s)
  {
  }

  /** The read step: no message the server is given overruns its buffer. */
  method ServerReadStep(ghost s: System, session: ClientSession, queue: MessageQueue, fs: FileSystem, net: Net,
                        result: int, env: Env, lastWrite: int, childPid: int, ptyFd: nat, ghost results: nat -> int,
                        ghost disk: Disk, ghost request: Paths)
    returns (net': Net)
    requires Fits(request) && Invariant(s, disk, request)
    requires ServerAt(s, session, queue, fs) && Matches(s, net) && net.alive && !net.overrun
    modifies session`pid, session`ptyMasterFd, session`fileFd, session`connectionType, fs
    modifies queue`txStart, queue`txEnd, queue`log, queue.txBuffer, queue`rxOffset, queue.rxBuffer
    ensures !net'.overrun
    ensures var s' := Step(s, ServerRead(result, env, lastWrite), results);
            ServerAt(s', session, queue, fs) && Matches(s', net')
  {
    ServerNeverOverruns(s, ReadSize(s.serverBuffer, s.up, result), disk, request);
    AfterReadingIsStep(s, result, env, lastWrite, results);
    net' := ServerReads(s, session, queue, fs, net.up, net.down, result, env, lastWrite, childPid, ptyFd);
  }

  method ServerSteps(ghost s: System, a: Action, session: ClientSession, queue: MessageQueue, fs: FileSystem, net: Net,
                     childPid: int, ptyFd: nat, ghost results: nat -> int, ghost disk: Disk, ghost request: Paths)
    returns (net': Net)
    requires Fits(request) && Invariant(s, disk, request)
    requires ServerAt(s, session, queue, fs) && Matches(s, net) && IsServerStep(a) && !net.overrun
    modifies session`pid, session`ptyMasterFd, session`fileFd, session`connectionType, session`fileTransferStarted, fs
    modifies queue`txStart, queue`txEnd, queue`log, queue.txBuffer, queue`rxOffset, queue.rxBuffer
    ensures !net'.overrun
    ensures var s' := Step(s, a, results);
            && ServerAt(s', session, queue, fs) && Matches(s', net')
            && s'.client == s.client && s'.clientBuffer == s.clientBuffer
  {
    net' := net;
    ServerStepFrame(s, a, results);
    if !net.alive {
      return;
    }
    match a
    case ServerRead(result, env, lastWrite) =>
      net' := ServerReadStep(s, session, queue, fs, net, result, env, lastWrite, childPid, ptyFd, results,
                             disk, request);
    case ServerSend(readAt) =>
      ServerSends(s, session, queue, fs, readAt, results);
    case ServerFlush(result) =>
      var down := ServerFlushes(s, session, queue, fs, net.down, result, results);
      net' := net.(down := down);
  }

  method ClientSteps(ghost s: System, a: Action, d: Downloader, queue: MessageQueue, net: Net, results: nat -> int)
    returns (net': Net)
    requires ClientAt(s, d, queue) && Matches(s, net) && !IsServerStep(a) && !net.overrun
    modifies d, queue`txStart, queue`txEnd, queue`log, queue.txBuffer, queue`rxOffset, queue.rxBuffer
    ensures net'.overrun <==> Overruns(s, a)
    ensures !net'.overrun ==>
              var s' := Step(s, a, results);
              && ClientAt(s', d, queue) && Matches(s', net')
              && s'.server == s.server && s'.serverBuffer == s.serverBuffer
  {
    match a
    case ClientRead(result) =>
      AfterReceivingIsStep(s, result, results);
      var overrun, down := ClientReads(s, d, queue, net.down, result, results);
      net' := net.(overrun := overrun, down := down);
    case ClientFlush(result) =>
      var up := ClientFlushes(s, d, queue, net.up, result, results);
      net' := net.(up := up);
  }

  /** A step of either end leaves the other one alone. */
  method Steps(ghost s: System, a: Action, session: ClientSession, serverQueue: MessageQueue, fs: FileSystem,
               d: Downloader, clientQueue: MessageQueue, net: Net, childPid: int, ptyFd: nat, results: nat -> int,
               ghost disk: Disk, ghost request: Paths)
    returns (net': Net)
    requires Fits(request) && Invariant(s, disk, request)
    requires At(s, session, serverQueue, fs, d, clientQueue, net) && Apart(serverQueue, clientQueue) && !net.overrun
    modifies session`pid, session`ptyMasterFd, session`fileFd, session`connectionType, session`fileTransferStarted, fs
    modifies serverQueue, serverQueue.txBuffer, serverQueue.rxBuffer
    modifies d, clientQueue, clientQueue.txBuffer, clientQueue.rxBuffer
    ensures net'.overrun <==> Overruns(s, a)
    ensures !net'.overrun ==> At(Step(s, a, results), session, serverQueue, fs, d, clientQueue, net')
  {
    if IsServerStep(a) {
      net' := ServerSteps(s, a, session, serverQueue, fs, net, childPid, ptyFd, results, disk, request);
    } else {
      net' := ClientSteps(s, a, d, clientQueue, net, results);
    }
  }

  // ---------- whole runs ----------

  /** The client has created its file and queued its request. */
  method StartClient(request: Paths) returns (d: Downloader, queue: MessageQueue)
    requires Fits(request)
    ensures fresh(d) && fresh(queue) && fresh(queue.txBuffer) && fresh(queue.rxBuffer)
    ensures queue.Valid() && queue.Received() == []
    ensures var m := RequestMessage(request);
            d.View(queue) == Client(true, [], false, Tx(0, Encode(m)), [m], 0, false)
  {
    d := new Downloader();
    queue := new MessageQueue();
    var ok := queue.Write(RequestMessage(request));
    assert [] + Encode(RequestMessage(request)) == Encode(RequestMessage(request));
  }

  /** The server has accepted the connection. */
  method StartServer(disk: Disk, socketFd: int) returns (session: ClientSession, queue: MessageQueue, fs: FileSystem)
    ensures fresh(session) && fresh(queue) && fresh(queue.txBuffer) && fresh(queue.rxBuffer) && fresh(fs)
    ensures queue.Valid() && queue.Received() == []
    ensures ServerOf(session, queue, fs) == Server(NewSession(), disk, Tx(0, []), [])
  {
    session := new ClientSession(socketFd);
    queue := new MessageQueue();
    fs := new FileSystem(disk);
  }

  /** Both ends at the start: the state `Initial` describes. */
  method Connect(disk: Disk, request: Paths, socketFd: int)
    returns (session: ClientSession, serverQueue: MessageQueue, fs: FileSystem,
             d: Downloader, clientQueue: MessageQueue, net: Net)
    requires Fits(request)
    ensures fresh(session) && fresh(serverQueue) && fresh(fs) && fresh(d) && fresh(clientQueue)
    ensures fresh(serverQueue.txBuffer) && fresh(serverQueue.rxBuffer)
    ensures fresh(clientQueue.txBuffer) && fresh(clientQueue.rxBuffer)
    ensures Apart(serverQueue, clientQueue) && !net.overrun
    ensures At(Initial(disk, request), session, serverQueue, fs, d, clientQueue, net)
  {
    session, serverQueue, fs := StartServer(disk, socketFd);
    d, clientQueue := StartClient(request);
    net := Net(true, false, [], []);
  }

  lemma NextState(disk: Disk, request: Paths, actions: seq<Action>, n: nat, results: nat -> int)
    requires Fits(request) && n < |actions|
    ensures var s := Run(Initial(disk, request), actions[..n], results);
            && Invariant(s, disk, request)
            && Run(Initial(disk, request), actions[..n + 1], results) == Step(s, actions[n], results)
  {
    RunKeepsInvariant(disk, request, actions[..n], results);
    assert actions[..n + 1][..n] == actions[..n];
  }

  /**
   Along any schedule the real objects of both ends are in the state of the step system: the results
   about its runs are results about them.  The one thing in the way is reported exactly when it
   happens: the client is given an answer that does not fit its buffer.
   */
  method RunDownload(disk: Disk, request: Paths, actions: seq<Action>, results: nat -> int, socketFd: int,
                     childPid: int, ptyFd: nat)
    returns (session: ClientSession, serverQueue: MessageQueue, fs: FileSystem,
             d: Downloader, clientQueue: MessageQueue, net: Net)
    requires Fits(request)
    ensures net.overrun <==> !StayInClientBuffer(Run(Initial(disk, request), actions, results).got)
    ensures !net.overrun ==>
              At(Run(Initial(disk, request), actions, results), session, serverQueue, fs, d, clientQueue, net)
  {
    session, serverQueue, fs, d, clientQueue, net := Connect(disk, request, socketFd);
    LongAnswerLeavesBuffer(disk, request, actions, results);
    var n := 0;
    while n < |actions|
      invariant 0 <= n <= |actions| && !net.overrun
      invariant At(Run(Initial(disk, request), actions[..n], results), session, serverQueue, fs, d, clientQueue, net)
      invariant !SomeLongAnswer(Run(Initial(disk, request), actions[..n], results).got)
    {
      NextState(disk, request, actions, n, results);
      ghost var s := Run(Initial(disk, request), actions[..n], results);
      OverrunGivesLongAnswer(s, actions[n], results);
      net := Steps(s, actions[n], session, serverQueue, fs, d, clientQueue, net, childPid, ptyFd, results,
                   disk, request);
      n := n + 1;
      if net.overrun {
        LongAnswersStay(disk, request, actions, n, results);
        return;
      }
    }
    assert actions[..n] == actions;
  }
}
