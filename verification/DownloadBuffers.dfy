/**
 The answer to a download request and the buffers it passes through: the server's log holds one
 answer, the request decides its length if it grants the download, and that length decides
 whether the client's copy of it stays inside the client's buffer.
 */
module DownloadBuffers {
  import opened Frames
  import opened TxRing
  import opened ByteStreams
  import opened Requests
  import opened HandlerBuffers
  import opened FileSending
  import opened TransferCapacity
  import opened ServerProtocol
  import opened PathAccess
  import opened Download
  import opened DownloadSafety

  /** The size of the frame that grants the request. */
  function GrantSize(request: Paths): nat
    requires Fits(request)
  {
    var p := ParseRequest(Printed(request));
    if p.Some? then HEADER_SIZE + |Response(Accepting(p.value))| else 0
  }

  /** For paths that survive the request: 17 bytes and the two paths, as long as that fits a 300-byte text. */
  lemma GrantSizeIs(request: Paths)
    requires Fits(request) && IsCString(request.source) && IsCString(request.destination)
    requires IsToken(request.source) && IsToken(request.destination)
    ensures var n := 17 + |request.source| + |request.destination|;
            GrantSize(request) == if n < MAX_RESPONSE_FRAME then n else MAX_RESPONSE_FRAME
  {
    RequestRoundTripIff(request, []);
    assert Payload(request, []) == Printed(request);
    assert |Ascii("OK ")| == 3;
  }

  lemma GrantSizeBounds(request: Paths)
    requires Fits(request)
    ensures GrantSize(request) <= MAX_RESPONSE_FRAME
    ensures ParseRequest(Printed(request)).Some? ==> MIN_GRANT_FRAME <= GrantSize(request)
  {
    assert |Ascii("OK ")| == 3;
  }

  /** The server has answered the request with OK, as its first message. */
  predicate Granted(sv: LiveServer) {
    sv.log != [] && SaysOk(sv.log[0].data)
  }

  predicate IsAnswer(m: Message) {
    m.kind == FILE_READY_SEND || m.kind == FILE_READY_RECV
  }

  predicate NoAnswersFrom(log: seq<Message>, n: nat) {
    forall i :: n <= i < |log| ==> !IsAnswer(log[i])
  }

  /** The request names two paths, and the first is a regular file. */
  predicate Grantable(disk: Disk, request: Paths)
    requires Fits(request)
  {
    && var p := ParseRequest(Printed(request));
       p.Some? && p.value.source in disk && disk[p.value.source].Regular?
  }

  /** The first message is the only answer; one that grants the request has the size the request decides. */
  ghost predicate Answered(sv: LiveServer, disk: Disk, request: Paths)
    requires Fits(request)
  {
    && NoAnswersFrom(sv.log, 1)
    && (sv.session.file.Open? ==> sv.log != [])
    && (Granted(sv) ==> IsAnswer(sv.log[0]) && FrameSize(sv.log[0]) == GrantSize(request) && Grantable(disk, request))
  }

  lemma CallQueuesNoAnswer(s: Sender, src: seq<Byte>, readAt: nat -> int)
    requires ValidSender(s, src)
    ensures var s' := Call(s, src, false, readAt);
            s.log <= s'.log && NoAnswersFrom(s'.log, |s.log|)
  {
    var w := Write(s.tx, Encode(BEGIN_MARK));
    if s.open && s.begun {
      LoopQueuesNoAnswer(src, s.pos, s.tx, readAt);
    } else if s.open && w.ok {
      LoopQueuesNoAnswer(src, s.pos, w.tx, readAt);
    }
  }

  lemma LoopQueuesNoAnswer(src: seq<Byte>, pos: nat, tx: Tx, readAt: nat -> int)
    requires tx.Valid() && pos <= |src|
    ensures NoAnswersFrom(SendLoop(src, pos, tx, readAt).msgs, 0)
  {
    var r := SendLoop(src, pos, tx, readAt);
    SendLoopTrace(src, pos, tx, readAt);
    BodyShape(r.msgs, src[pos..r.pos], r.exit.Finished?);
    forall i | 0 <= i < |r.msgs|
      ensures !IsAnswer(r.msgs[i])
    {
      assert r.msgs[i] == END_MARK || IsChunk(r.msgs[i]);
    }
  }

  lemma SendKeepsAnswered(sv: LiveServer, src: seq<Byte>, disk: Disk, request: Paths, readAt: nat -> int)
    requires Fits(request) && Answered(sv, disk, request) && sv.session.file.Open?
    requires ServerFacts(sv, src, disk)
    ensures Answered(SendData(sv, readAt), disk, request)
  {
    CallQueuesNoAnswer(SenderOf(sv), src, readAt);
    var s' := Call(SenderOf(sv), src, false, readAt);
    assert SendData(sv, readAt) == WithSender(sv, s');
    assert s'.log[0] == sv.log[0];
  }

  lemma RequestKeepsAnswered(sv: LiveServer, disk: Disk, request: Paths, env: Env)
    requires Fits(request) && Accepted(sv, disk)
    ensures Answered(ServerHandles(sv, RequestMessage(request), env).0, disk, request)
  {
    var m := RequestMessage(request);
    RequestKeepsFacts(sv, disk, request, env);
    var p := ParseRequest(m.data);
    if p.Some? {
      RequestIsAnswered(sv, m, env, p.value);
      DownloadAnswerSaysOkIff(sv.session, sv.disk, p.value, env);
    }
  }

  lemma DestroyKeepsAnswered(s: System, lastWrite: int, disk: Disk, request: Paths)
    requires Fits(request) && Answered(s.server, disk, request)
    ensures Answered(Destroy(s, lastWrite).server, disk, request)
  {
  }

  lemma ServerReadKeepsAnswered(s: System, result: int, env: Env, lastWrite: int, results: nat -> int,
                                disk: Disk, request: Paths)
    requires Fits(request) && Invariant(s, disk, request) && Answered(s.server, disk, request)
    ensures Answered(Step(s, ServerRead(result, env, lastWrite), results).server, disk, request)
  {
    var n := ReadSize(s.serverBuffer, s.up, result);
    if s.alive && result < 0 {
      DestroyKeepsAnswered(s, lastWrite, disk, request);
    } else if s.alive && n > 0 {
      ServeKeepsInvariant(s, n, env, disk, request);
      if s.served == [] {
        RequestKeepsAnswered(s.server, disk, request, env);
      }
      DestroyKeepsAnswered(AfterServerRead(s, n, env), lastWrite, disk, request);
    }
  }

  lemma StepKeepsAnswered(s: System, a: Action, results: nat -> int, disk: Disk, request: Paths)
    requires Fits(request) && Invariant(s, disk, request) && Answered(s.server, disk, request)
    ensures Answered(Step(s, a, results).server, disk, request)
  {
    match a
    case ClientFlush(_) =>
    case ClientRead(_) =>
    case ServerFlush(_) =>
    case ServerSend(readAt) =>
      if s.alive && s.server.session.file.Open? && !s.server.tx.Saturated() {
        SendKeepsAnswered(s.server, Requested(disk, request), disk, request, readAt);
      }
    case ServerRead(result, env, lastWrite) =>
      ServerReadKeepsAnswered(s, result, env, lastWrite, results, disk, request);
  }

  lemma {:induction false} RunKeepsAnswered(disk: Disk, request: Paths, actions: seq<Action>, results: nat -> int)
    requires Fits(request)
    ensures Answered(Run(Initial(disk, request), actions, results).server, disk, request)
    decreases |actions|
  {
    if actions == [] {
    } else {
      var n := |actions| - 1;
      RunKeepsAnswered(disk, request, actions[..n], results);
      RunKeepsInvariant(disk, request, actions[..n], results);
      StepKeepsAnswered(Run(Initial(disk, request), actions[..n], results), actions[n], results, disk, request);
    }
  }

  // ---------- the text of the answer ----------

  /** What the server answers to the request, `env` being what its system calls gave. */
  function AnswerMessage(disk: Disk, request: Paths, env: Env): (m: Message)
    requires Fits(request) && ParseRequest(Printed(request)).Some?
    ensures IsAnswer(m)
  {
    RawMessage(FILE_READY_RECV,
               Response(AnswerDownload(NewSession(), disk, ParseRequest(Printed(request)).value, env).text))
  }

  /** The outcomes of system calls in the server's reads. */
  function EnvsOf(actions: seq<Action>): seq<Env>
    decreases |actions|
  {
    if actions == [] then []
    else EnvsOf(actions[..|actions| - 1]) + EnvsIn(actions[|actions| - 1])
  }

  function EnvsIn(a: Action): seq<Env> {
    if a.ServerRead? then [a.env] else []
  }

  /** If the first message is an answer, it is the one to this request, in one of the environments `envs`. */
  ghost predicate AnswersRequest(log: seq<Message>, disk: Disk, request: Paths, envs: seq<Env>)
    requires Fits(request)
  {
    log != [] && IsAnswer(log[0]) ==>
      && ParseRequest(Printed(request)).Some?
      && exists env :: env in envs && log[0] == AnswerMessage(disk, request, env)
  }

  lemma ExtendedLogAnswers(log: seq<Message>, log': seq<Message>, disk: Disk, request: Paths, envs: seq<Env>,
                           more: seq<Env>)
    requires Fits(request) && AnswersRequest(log, disk, request, envs)
    requires log <= log' && (log == [] ==> log' == [] || !IsAnswer(log'[0]))
    ensures AnswersRequest(log', disk, request, envs + more)
  {
    if log != [] && IsAnswer(log[0]) {
      var env :| env in envs && log[0] == AnswerMessage(disk, request, env);
      assert env in envs + more && log'[0] == log[0];
    }
  }

  lemma RequestStartsAnswers(sv: LiveServer, disk: Disk, request: Paths, envs: seq<Env>, env: Env)
    requires Fits(request) && Accepted(sv, disk)
    ensures AnswersRequest(ServerHandles(sv, RequestMessage(request), env).0.log, disk, request, envs + [env])
  {
    var m := RequestMessage(request);
    var p := ParseRequest(m.data);
    if p.Some? {
      RequestIsAnswered(sv, m, env, p.value);
      assert env in envs + [env];
    }
  }

  lemma DestroyExtendsLog(s: System, lastWrite: int)
    ensures var log := Destroy(s, lastWrite).server.log;
            log == s.server.log || log == s.server.log + [LAST_MESSAGE]
  {
  }

  lemma ServingKeepsAnswers(s: System, n: nat, env: Env, disk: Disk, request: Paths, envs: seq<Env>)
    requires Fits(request) && Invariant(s, disk, request) && AnswersRequest(s.server.log, disk, request, envs)
    requires s.alive && n <= |s.up|
    ensures AnswersRequest(AfterServerRead(s, n, env).server.log, disk, request, envs + [env])
  {
    ExtendedLogAnswers(s.server.log, s.server.log, disk, request, envs, [env]);
    ServeKeepsInvariant(s, n, env, disk, request);
    if s.served == [] {
      RequestStartsAnswers(s.server, disk, request, envs, env);
    }
  }

  lemma EndingKeepsAnswers(s: System, lastWrite: int, disk: Disk, request: Paths, envs: seq<Env>, more: seq<Env>)
    requires Fits(request) && AnswersRequest(s.server.log, disk, request, envs)
    ensures AnswersRequest(Destroy(s, lastWrite).server.log, disk, request, envs + more)
  {
    DestroyExtendsLog(s, lastWrite);
    ExtendedLogAnswers(s.server.log, Destroy(s, lastWrite).server.log, disk, request, envs, more);
  }

  lemma ServerReadKeepsAnswers(s: System, result: int, env: Env, lastWrite: int, results: nat -> int,
                               disk: Disk, request: Paths, envs: seq<Env>)
    requires Fits(request) && Invariant(s, disk, request) && AnswersRequest(s.server.log, disk, request, envs)
    ensures AnswersRequest(Step(s, ServerRead(result, env, lastWrite), results).server.log, disk, request, envs + [env])
  {
    var n := ReadSize(s.serverBuffer, s.up, result);
    if s.alive && result < 0 {
      EndingKeepsAnswers(s, lastWrite, disk, request, envs, [env]);
    } else if s.alive && n > 0 {
      ServingKeepsAnswers(s, n, env, disk, request, envs);
      EndingKeepsAnswers(AfterServerRead(s, n, env), lastWrite, disk, request, envs + [env], []);
      assert envs + [env] + [] == envs + [env];
    } else {
      ExtendedLogAnswers(s.server.log, s.server.log, disk, request, envs, [env]);
    }
  }

  lemma StepKeepsAnswers(s: System, a: Action, results: nat -> int, disk: Disk, request: Paths, envs: seq<Env>)
    requires Fits(request) && Invariant(s, disk, request) && Answered(s.server, disk, request)
    requires AnswersRequest(s.server.log, disk, request, envs)
    ensures AnswersRequest(Step(s, a, results).server.log, disk, request, envs + EnvsIn(a))
  {
    if a.ServerRead? {
      ServerReadKeepsAnswers(s, a.result, a.env, a.lastWrite, results, disk, request, envs);
    } else {
      assert envs + [] == envs;
      if a.ServerSend? && s.alive && s.server.session.file.Open? && !s.server.tx.Saturated() {
        SendExtendsLog(s.server, a.readAt);
        ExtendedLogAnswers(s.server.log, SendData(s.server, a.readAt).log, disk, request, envs, []);
      }
    }
  }

  lemma {:induction false} RunKeepsAnswers(disk: Disk, request: Paths, actions: seq<Action>, results: nat -> int)
    requires Fits(request)
    ensures AnswersRequest(Run(Initial(disk, request), actions, results).server.log, disk, request, EnvsOf(actions))
    decreases |actions|
  {
    if actions == [] {
    } else {
      var n := |actions| - 1;
      var s := Run(Initial(disk, request), actions[..n], results);
      RunKeepsAnswers(disk, request, actions[..n], results);
      RunKeepsInvariant(disk, request, actions[..n], results);
      RunKeepsAnswered(disk, request, actions[..n], results);
      StepKeepsAnswers(s, actions[n], results, disk, request, EnvsOf(actions[..n]));
    }
  }

  // ---------- the copies ----------

  /** Every message the client was given stays in the handler's buffer. */
  predicate StayInClientBuffer(got: seq<Message>) {
    forall i :: 0 <= i < |got| ==> StaysInClientBuffer(got[i])
  }

  /**
   The answer, granting or refusing, leaves the client's buffer a byte for the second terminator.  For
   a source that is missing or not a regular file this is known beforehand.
   */
  predicate AnswerFits(disk: Disk, request: Paths, env: Env)
    requires Fits(request) && ParseRequest(Printed(request)).Some?
  {
    var p := ParseRequest(Printed(request)).value;
    if p.source !in disk then |p.source| < 267
    else if !disk[p.source].Regular? then |p.source| < 272
    else if !env.openOk then |env.errorText| < 275
    else |p.source| + |p.destination| < 295
  }

  lemma AnswerFitsIff(disk: Disk, request: Paths, env: Env)
    requires Fits(request) && ParseRequest(Printed(request)).Some?
    ensures StaysInClientBuffer(AnswerMessage(disk, request, env)) <==> AnswerFits(disk, request, env)
  {
    var p := ParseRequest(Printed(request)).value;
    AnswerFitsClientIff(FILE_READY_RECV, AnswerDownload(NewSession(), disk, p, env).text);
    assert |Ascii("KO source file '")| == 16 && |Ascii("' does not exist")| == 16;
    assert |Ascii("KO '")| == 4 && |Ascii("' is not a regular file")| == 23;
    assert |Ascii("KO failed to open file: ")| == 24 && |Ascii("OK ")| == 3;
  }

  lemma CopiesStayIff(got: seq<Message>, log: seq<Message>)
    requires got != [] && got <= log && NoAnswersFrom(log, 1)
    ensures StayInClientBuffer(got) <==> StaysInClientBuffer(log[0])
  {
    assert got[0] == log[0];
    assert forall i :: 1 <= i < |got| ==> got[i] == log[i];
  }

  lemma ServedStays(s: System, disk: Disk, request: Paths)
    requires Fits(request) && Invariant(s, disk, request)
    ensures forall i :: 0 <= i < |s.served| ==> StaysInServerBuffer(s.served[i])
  {
    TransportHolds(s, disk, request);
  }

  /** A client that has been given a granting answer: the length of the answer decides, and the request decides that. */
  lemma GrantedStaysIff(s: System, disk: Disk, request: Paths)
    requires Fits(request) && Invariant(s, disk, request) && Answered(s.server, disk, request)
    requires Granted(s.server) && s.got != []
    ensures StayInClientBuffer(s.got) <==> GrantSize(request) < MAX_RESPONSE_FRAME
  {
    TransportHolds(s, disk, request);
    CopiesStayIff(s.got, s.server.log);
  }

  /**
   In every run of a download the server's copies stay inside its request buffer.  If the client was
   given an answer, its copy stays inside its own if and only if that answer fits, which the request, the
   disk and the outcome of one of the server's reads decide; if it was not, nothing is copied.
   */
  lemma DownloadStaysInBuffersIff(disk: Disk, request: Paths, actions: seq<Action>, results: nat -> int)
    requires Fits(request)
    ensures var s := Run(Initial(disk, request), actions, results);
            && (forall i :: 0 <= i < |s.served| ==> StaysInServerBuffer(s.served[i]))
            && (s.got == [] || !IsAnswer(s.got[0]) ==> StayInClientBuffer(s.got))
            && (s.got != [] && IsAnswer(s.got[0]) ==>
                  && ParseRequest(Printed(request)).Some?
                  && exists env :: env in EnvsOf(actions) && s.got[0] == AnswerMessage(disk, request, env)
                                   && (StayInClientBuffer(s.got) <==> AnswerFits(disk, request, env)))
  {
    var s := Run(Initial(disk, request), actions, results);
    RunKeepsAnswered(disk, request, actions, results);
    RunKeepsAnswers(disk, request, actions, results);
    RunKeepsInvariant(disk, request, actions, results);
    ServedStays(s, disk, request);
    TransportHolds(s, disk, request);
    if s.got != [] {
      CopiesStayIff(s.got, s.server.log);
      if IsAnswer(s.got[0]) {
        var env :| env in EnvsOf(actions) && s.server.log[0] == AnswerMessage(disk, request, env);
        AnswerFitsIff(disk, request, env);
      }
    }
  }
}
