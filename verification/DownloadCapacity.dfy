/**
 The size limit of a download, for whole runs of client and server: with reads of the source
 that return all they are asked for, the answer's length and the file's size decide whether
 the client can ever see the end mark.
 */
module DownloadCapacity {
  import opened Frames
  import opened TxRing
  import opened ByteStreams
  import opened Requests
  import opened FileSending
  import opened TransferCapacity
  import opened ServerProtocol
  import opened Download
  import opened DownloadSafety
  import opened DownloadBuffers

  /** `base` is the size of the answer that grants the request. */
  ghost predicate ServingCapacity(sv: LiveServer, src: seq<Byte>, base: nat) {
    && base <= MAX_RESPONSE_FRAME
    && if Granted(sv) then CapacityInvariant(SenderOf(sv), src, base)
       else sv.session.file.Closed? && EndMarks(sv.log) == 0
  }

  ghost predicate EndedCapacity(sv: LiveServer, src: seq<Byte>, base: nat) {
    EndMarks(sv.log) > 0 ==> Granted(sv) && Completes(base, |src|)
  }

  ghost predicate Capacity(s: System, src: seq<Byte>, base: nat) {
    if s.alive then ServingCapacity(s.server, src, base) else EndedCapacity(s.server, src, base)
  }

  ghost predicate ReadsInFull(a: Action) {
    a.ServerSend? ==> FullReads(a.readAt)
  }

  /** A single answer is the whole ring, and its size is where the end cursor stands. */
  lemma FirstAnswerIsUnwrapped(sv: LiveServer, reply: Message)
    requires sv.log == [reply] && sv.tx == Tx(0, EncodeAll([reply])) && FrameSize(reply) <= MAX_RESPONSE_FRAME
    ensures Unwrapped(sv.tx, FrameSize(reply))
  {
    EncodeAllCons(reply, []);
    assert [reply] + [] == [reply];
  }

  lemma RequestStartsCapacity(sv: LiveServer, disk: Disk, request: Paths, env: Env)
    requires Fits(request) && Accepted(sv, disk)
    ensures ServingCapacity(ServerHandles(sv, RequestMessage(request), env).0, Requested(disk, request),
                            GrantSize(request))
  {
    RequestKeepsFacts(sv, disk, request, env);
    RequestKeepsAnswered(sv, disk, request, env);
    GrantSizeBounds(request);
    var p := ParseRequest(Printed(request));
    if p.Some? {
      RequestIsAnswered(sv, RequestMessage(request), env, p.value);
      DownloadAnswerSaysOkIff(sv.session, sv.disk, p.value, env);
      var sv' := ServerHandles(sv, RequestMessage(request), env).0;
      if Granted(sv') {
        FirstAnswerIsUnwrapped(sv', sv'.log[0]);
      }
    }
  }

  lemma SendKeepsCapacity(sv: LiveServer, src: seq<Byte>, base: nat, readAt: nat -> int)
    requires ServingCapacity(sv, src, base) && FullReads(readAt) && !sv.tx.Saturated()
    requires sv.session.file.Open? && sv.session.kind == FileDownload && sv.session.file.mode == ReadOnly
    requires Source(sv) == src
    ensures ServingCapacity(SendData(sv, readAt), src, base)
  {
    var s := SenderOf(sv);
    var s' := Call(s, src, false, readAt);
    CallKeepsCapacity(s, src, readAt, base);
    CallExtendsLog(s, src, readAt);
    assert SendData(sv, readAt) == WithSender(sv, s');
    assert s'.log[0] == sv.log[0];
  }

  lemma FlushKeepsCapacity(sv: LiveServer, src: seq<Byte>, base: nat, result: int)
    requires ServingCapacity(sv, src, base)
    ensures ServingCapacity(sv.(tx := Flush(sv.tx, result)), src, base)
  {
    if sv.session.file.Open? {
      FlushKeepsUnwrapped(sv.tx, Used(base, sv.session.started, sv.session.file.pos), result);
    }
  }

  lemma DestroyEndsCapacity(s: System, lastWrite: int, src: seq<Byte>, base: nat)
    requires s.alive && ServingCapacity(s.server, src, base)
    ensures EndedCapacity(Destroy(s, lastWrite).server, src, base)
  {
    LogOther(s.server.log, LAST_MESSAGE);
  }

  lemma StepKeepsCapacity(s: System, a: Action, results: nat -> int, disk: Disk, request: Paths)
    requires Fits(request) && Invariant(s, disk, request) && ReadsInFull(a)
    requires Capacity(s, Requested(disk, request), GrantSize(request))
    ensures Capacity(Step(s, a, results), Requested(disk, request), GrantSize(request))
  {
    var src, base := Requested(disk, request), GrantSize(request);
    match a
    case ClientFlush(_) =>
    case ClientRead(_) =>
    case ServerFlush(result) =>
      if s.alive {
        FlushKeepsCapacity(s.server, src, base, result);
      }
    case ServerSend(readAt) =>
      if s.alive && s.server.session.file.Open? && !s.server.tx.Saturated() {
        SendKeepsCapacity(s.server, src, base, readAt);
      }
    case ServerRead(result, env, lastWrite) =>
      ServerReadKeepsCapacity(s, result, env, lastWrite, results, disk, request);
  }

  lemma ServerReadKeepsCapacity(s: System, result: int, env: Env, lastWrite: int, results: nat -> int,
                                disk: Disk, request: Paths)
    requires Fits(request) && Invariant(s, disk, request)
    requires Capacity(s, Requested(disk, request), GrantSize(request))
    ensures Capacity(Step(s, ServerRead(result, env, lastWrite), results), Requested(disk, request), GrantSize(request))
  {
    var src, base := Requested(disk, request), GrantSize(request);
    var n := ReadSize(s.serverBuffer, s.up, result);
    if s.alive && result < 0 {
      DestroyEndsCapacity(s, lastWrite, src, base);
    } else if s.alive && n > 0 {
      ServeKeepsInvariant(s, n, env, disk, request);
      if s.served == [] {
        RequestStartsCapacity(s.server, disk, request, env);
      }
      DestroyEndsCapacity(AfterServerRead(s, n, env), lastWrite, src, base);
    }
  }

  lemma {:induction false} RunKeepsCapacity(disk: Disk, request: Paths, actions: seq<Action>, results: nat -> int)
    requires Fits(request) && forall i :: 0 <= i < |actions| ==> ReadsInFull(actions[i])
    ensures Capacity(Run(Initial(disk, request), actions, results), Requested(disk, request), GrantSize(request))
    decreases |actions|
  {
    if actions == [] {
      GrantSizeBounds(request);
    } else {
      var n := |actions| - 1;
      RunKeepsCapacity(disk, request, actions[..n], results);
      RunKeepsInvariant(disk, request, actions[..n], results);
      StepKeepsCapacity(Run(Initial(disk, request), actions[..n], results), actions[n], results, disk, request);
    }
  }

  /**
   As long as the session lives, a granted download whose file the server has closed has had its
   end mark queued if and only if the request and the size of the file satisfy `Completes`.
   */
  lemma GrantedDownloadEndsIff(disk: Disk, request: Paths, actions: seq<Action>, results: nat -> int)
    requires Fits(request) && forall i :: 0 <= i < |actions| ==> ReadsInFull(actions[i])
    ensures var s := Run(Initial(disk, request), actions, results);
            s.alive && Granted(s.server) && s.server.session.file.Closed? ==>
              (EndMarks(s.server.log) > 0 <==> Completes(GrantSize(request), |Requested(disk, request)|))
  {
    RunKeepsCapacity(disk, request, actions, results);
  }

  /** If the request and the size of the file do not satisfy `Completes`, no run shows the client the end mark. */
  lemma UnfittingDownloadNeverCompletes(disk: Disk, request: Paths, actions: seq<Action>, results: nat -> int)
    requires Fits(request) && forall i :: 0 <= i < |actions| ==> ReadsInFull(actions[i])
    requires !Completes(GrantSize(request), |Requested(disk, request)|)
    ensures EndMarks(Run(Initial(disk, request), actions, results).got) == 0
  {
    var s := Run(Initial(disk, request), actions, results);
    RunKeepsCapacity(disk, request, actions, results);
    RunKeepsInvariant(disk, request, actions, results);
    TransitIsTheUnreadLog(s);
    PrefixEndMarks(s.got, s.server.log);
    if s.server.session.file.Open? {
      assert EndMarks(s.server.log) == 0;
    }
  }

  /** The client never completes a file of more than 997,041 bytes, in any run. */
  lemma NoLargeDownloadCompletes(disk: Disk, request: Paths, actions: seq<Action>, results: nat -> int)
    requires Fits(request) && forall i :: 0 <= i < |actions| ==> ReadsInFull(actions[i])
    requires |Requested(disk, request)| > 997_041
    ensures EndMarks(Run(Initial(disk, request), actions, results).got) == 0
  {
    GrantSizeBounds(request);
    CompletesBounds(GrantSize(request), |Requested(disk, request)|);
    UnfittingDownloadNeverCompletes(disk, request, actions, results);
  }

  /**
   A granted download that fits, once closed by the server and drained, has arrived whole, and the
   client's copies have stayed in their buffer if and only if the answer left a byte of it free.
   */
  lemma FittingDownloadArrivesWhole(disk: Disk, request: Paths, actions: seq<Action>, results: nat -> int)
    requires Fits(request) && forall i :: 0 <= i < |actions| ==> ReadsInFull(actions[i])
    ensures var s := Run(Initial(disk, request), actions, results);
            var src := Requested(disk, request);
            && s.alive && Granted(s.server) && Completes(GrantSize(request), |src|)
            && s.server.session.file.Closed? && s.down == [] && s.server.tx.pending == [] && !s.client.short
            ==> && s.client.local == src && s.client.complete
                && (StayInClientBuffer(s.got) <==> GrantSize(request) < MAX_RESPONSE_FRAME)
  {
    var s := Run(Initial(disk, request), actions, results);
    RunKeepsCapacity(disk, request, actions, results);
    RunKeepsInvariant(disk, request, actions, results);
    if s.down == [] && s.server.tx.pending == [] {
      DrainedDownloadIsDelivered(disk, request, actions, results);
      RunKeepsAnswered(disk, request, actions, results);
      if Granted(s.server) {
        GrantedStaysIff(s, disk, request);
      }
    }
  }
}
