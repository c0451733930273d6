/**
 What every run of a download keeps, and what follows for the file the client ends up with.
 */
module DownloadSafety {
  import opened Frames
  import opened TxRing
  import opened Reassembly
  import opened ByteStreams
  import opened Options
  import opened Requests
  import opened HandlerBuffers
  import opened FileSending
  import opened ServerProtocol
  import opened DownloadClient
  import opened Download

  // ---------- the server ----------

  predicate AllSendable(ms: seq<Message>) {
    forall i :: 0 <= i < |ms| ==> Sendable(ms[i])
  }

  /** What the server has queued agrees with the file: a prefix, all of it once the end mark is queued. */
  ghost predicate ServerFacts(sv: LiveServer, src: seq<Byte>, disk: Disk) {
    && sv.disk == disk
    && AllSendable(sv.log)
    && Delivered(sv.log) <= src
    && EndMarks(sv.log) <= 1
    && (EndMarks(sv.log) > 0 ==> Delivered(sv.log) == src)
    && (sv.session.file.Open? ==>
          && sv.session.kind == FileDownload && sv.session.file.mode == ReadOnly
          && Source(sv) == src
          && Delivered(sv.log) == src[..sv.session.file.pos]
          && EndMarks(sv.log) == 0)
  }

  ghost predicate Accepted(sv: LiveServer, disk: Disk) {
    sv == Server(NewSession(), disk, Tx(0, []), [])
  }

  lemma AppendSendable(ms: seq<Message>, more: seq<Message>)
    requires AllSendable(ms) && AllSendable(more)
    ensures AllSendable(ms + more)
  {
  }

  /** A message that is neither data nor end mark changes nothing the client can write. */
  lemma LogOther(log: seq<Message>, m: Message)
    requires m.kind != FILE_DATA && m.kind != FILE_DATA_END
    ensures Delivered(log + [m]) == Delivered(log) && EndMarks(log + [m]) == EndMarks(log)
  {
    DeliveredOne(m);
    DeliveredAppend(log, [m]);
  }

  lemma ChunksDeliver(s: Sender, src: seq<Byte>, readAt: nat -> int)
    requires ValidSender(s, src) && s.open && AllSendable(s.log)
    requires Delivered(s.log) == src[..s.pos] && EndMarks(s.log) == 0
    ensures var s' := SendChunks(s, src, readAt);
            && AllSendable(s'.log)
            && Delivered(s'.log) == src[..s'.pos]
            && EndMarks(s'.log) <= 1
            && (EndMarks(s'.log) > 0 ==> s'.pos == |src| && !s'.open)
  {
    var r := SendLoop(src, s.pos, s.tx, readAt);
    SendLoopTrace(src, s.pos, s.tx, readAt);
    BodyDelivers(s.log, r.msgs, src, s.pos, r.pos, r.exit.Finished?);
  }

  lemma BodyDelivers(log: seq<Message>, ms: seq<Message>, src: seq<Byte>, pos: nat, pos': nat, ended: bool)
    requires pos <= pos' <= |src| && BodyOf(ms) == Body(src[pos..pos'], ended)
    requires AllSendable(log) && Delivered(log) == src[..pos] && EndMarks(log) == 0
    ensures AllSendable(log + ms)
    ensures Delivered(log + ms) == src[..pos']
    ensures EndMarks(log + ms) == if ended then 1 else 0
  {
    BodyShape(ms, src[pos..pos'], ended);
    BodySendable(ms, ended);
    AppendSendable(log, ms);
    DeliveredAppend(log, ms);
    assert src[..pos] + src[pos..pos'] == src[..pos'];
  }

  lemma BodySendable(ms: seq<Message>, ended: bool)
    requires ended ==> ms != [] && ms[|ms| - 1] == END_MARK
    requires forall i :: 0 <= i < |ms| && (ended ==> i < |ms| - 1) ==> IsChunk(ms[i])
    ensures AllSendable(ms)
  {
    forall i | 0 <= i < |ms| ensures Sendable(ms[i]) {
      assert ms[i] == END_MARK || IsChunk(ms[i]);
    }
  }

  lemma CallDelivers(s: Sender, src: seq<Byte>, readAt: nat -> int)
    requires ValidSender(s, src) && s.open && AllSendable(s.log)
    requires Delivered(s.log) == src[..s.pos] && EndMarks(s.log) == 0
    ensures var s' := Call(s, src, false, readAt);
            && AllSendable(s'.log)
            && Delivered(s'.log) == src[..s'.pos]
            && EndMarks(s'.log) <= 1
            && (EndMarks(s'.log) > 0 ==> s'.pos == |src| && !s'.open)
  {
    if s.begun {
      ChunksDeliver(s, src, readAt);
    } else {
      var w := Write(s.tx, Encode(BEGIN_MARK));
      if w.ok {
        LogOther(s.log, BEGIN_MARK);
        AppendSendable(s.log, [BEGIN_MARK]);
        ChunksDeliver(s.(begun := true, tx := w.tx, log := s.log + [BEGIN_MARK]), src, readAt);
      }
    }
  }

  /** A send call keeps the facts, appends to the ring what it logs, and stays below 504,120 bytes. */
  lemma SendKeepsFacts(sv: LiveServer, src: seq<Byte>, disk: Disk, readAt: nat -> int)
    requires ServerFacts(sv, src, disk) && sv.session.file.Open? && !sv.tx.Saturated()
    ensures var sv' := SendData(sv, readAt);
            && ServerFacts(sv', src, disk)
            && Appended(SenderOf(sv), SenderOf(sv')) && |sv'.tx.pending| <= 504_120
  {
    CallDelivers(SenderOf(sv), src, readAt);
    CallNeverFills(SenderOf(sv), src, false, readAt);
    var s' := Call(SenderOf(sv), src, false, readAt);
    assert SendData(sv, readAt) == WithSender(sv, s');
    assert src[..|src|] == src;
  }

  /** The request is answered with one small message, and the file is opened exactly if the answer says OK. */
  lemma RequestKeepsFacts(sv: LiveServer, disk: Disk, request: Paths, env: Env)
    requires Fits(request) && Accepted(sv, disk)
    ensures var r := Handle(sv, RequestMessage(request), env);
            var src := Requested(disk, request);
            && ValidServer(r.0) && ServerFacts(r.0, src, disk)
            && r.0.tx.pending == EncodeAll(r.0.log) && r.0.tx.start == 0
            && |r.0.tx.pending| <= 312
            && (!r.1 ==> r.0 == sv)
            && (r.0.session.file.Open? ==> !r.0.session.started && |r.0.log| == 1)
            && EndMarks(r.0.log) == 0
  {
    var m := RequestMessage(request);
    HandleKeepsValid(sv, m, env);
    var p := ParseRequest(m.data);
    if p.Some? {
      RequestIsAnswered(sv, m, env, p.value);
      DownloadAnswerSaysOkIff(sv.session, sv.disk, p.value, env);
      assert Requested(disk, request)[..0] == [];
    }
  }

  lemma RequestIsAnswered(sv: Server, m: Message, env: Env, p: Paths)
    requires sv.tx == Tx(0, []) && sv.log == []
    requires m.kind == FILE_DOWNLOAD_START && ParseRequest(m.data) == Some(p)
    ensures var a := AnswerDownload(sv.session, sv.disk, p, env);
            var reply: Message := RawMessage(FILE_READY_RECV, Response(a.text));
            && Handle(sv, m, env) == (Server(a.session, a.disk, Tx(0, EncodeAll([reply])), [reply]), true)
            && |EncodeAll([reply])| <= 312 && Sendable(reply)
            && Delivered([reply]) == [] && EndMarks([reply]) == 0
  {
    var a := AnswerDownload(sv.session, sv.disk, p, env);
    DownloadIsPosted(sv, m, p, env, a);
    RequestsAreDispatched(sv, m, env);
    FirstReply(sv.(session := a.session, disk := a.disk), RawMessage(FILE_READY_RECV, Response(a.text)));
  }

  /** The first message into an empty, unused ring is always accepted. */
  lemma FirstReply(sv: Server, reply: Message)
    requires sv.tx == Tx(0, []) && sv.log == []
    requires |reply.data| <= MAX_PATH_LENGTH && reply.kind != FILE_DATA && reply.kind != FILE_DATA_END
    ensures var r := Post(sv, reply);
            && r.1 && r.0.log == [reply] && r.0.tx == Tx(0, EncodeAll([reply]))
            && |EncodeAll([reply])| <= 312
    ensures Delivered([reply]) == [] && EndMarks([reply]) == 0
  {
    DeliveredOne(reply);
    EncodeAllSnoc([], reply);
    assert [] + [reply] == [reply] && [] + Encode(reply) == Encode(reply);
  }

  // ---------- the client ----------

  ghost predicate ClientFacts(c: LiveClient, got: seq<Message>, m: Message) {
    && (c.log == [m] || (c.log == [m, ACK] && EndMarks(got) > 0))
    && (c.open <==> EndMarks(got) == 0)
    && (!c.open ==> c.complete)
    && |c.local| <= |Delivered(got)|
    && (c.local == Delivered(got) <==> !c.short)
    && (c.short ==> |c.local| < |Delivered(got)|)
  }

  lemma ShortLog(m: Message)
    requires Sendable(m)
    ensures |EncodeAll([m])| <= 4108
    ensures EncodeAll([m, ACK]) == EncodeAll([m]) + Encode(ACK)
  {
    EncodeAllCons(m, []);
    assert [m] + [] == [m];
    EncodeAllSnoc([m], ACK);
    assert [m] + [ACK] == [m, ACK];
  }

  lemma MessageKeepsClient(c: LiveClient, got: seq<Message>, m: Message, msg: Message, result: int,
                           upstream: seq<Byte>)
    requires ClientFacts(c, got, m) && Sendable(m) && EndMarks(got + [msg]) <= 1
    requires EncodeAll(c.log) == upstream + c.tx.pending
    ensures var c' := HandleDownload(c, msg, result);
            ClientFacts(c', got + [msg], m) && EncodeAll(c'.log) == upstream + c'.tx.pending
  {
    DeliveredAppend(got, [msg]);
    DeliveredOne(msg);
    HandleDownloadWrites(c, msg, result, Delivered(got));
    ShortLog(m);
    if msg.kind == FILE_DATA_END {
      Regroup(upstream, c.tx.pending, Encode(ACK));
      assert [m] + [ACK] == [m, ACK];
    }
  }

  /** What one read does to the client when its bytes are a stretch of what the server queued. */
  lemma {:induction false} ReadKeepsClient(b: seq<Byte>, tail: seq<Byte>, log: seq<Message>, c: LiveClient,
                                           got: seq<Message>, m: Message, results: nat -> int, upstream: seq<Byte>)
    requires EncodeAll(got) + b + tail == EncodeAll(log) && EndMarks(log) <= 1
    requires ClientFacts(c, got, m) && Sendable(m)
    requires EncodeAll(c.log) == upstream + c.tx.pending
    ensures var o := Process(b, c, OnClientMessage(results));
            ClientFacts(o.state, got + o.accepted, m) && EncodeAll(o.state.log) == upstream + o.state.tx.pending
    decreases |b|
  {
    if FrontOf(b).Complete? {
      var msg := FrontOf(b).msg;
      var rest := b[FrameSize(msg)..];
      var c' := ClientHandles(c, msg, results).0;
      TakeOne(got, b, tail, log, msg);
      MessageKeepsClient(c, got, m, msg, results(c.writeCalls), upstream);
      ReadKeepsClient(rest, tail, log, c', got + [msg], m, results, upstream);
      var o := Process(rest, c', OnClientMessage(results));
      Regroup(got, [msg], o.accepted);
    } else {
      assert got + [] == got;
    }
  }

  lemma TakeFront(before: seq<Byte>, frame: seq<Byte>, rest: seq<Byte>, tail: seq<Byte>)
    ensures before + (frame + rest) + tail == (before + frame) + (rest + tail)
  {
  }

  /** The next frame of an encoded log is its next message. */
  lemma TakeOne(taken: seq<Message>, b: seq<Byte>, tail: seq<Byte>, log: seq<Message>, msg: Message)
    requires EncodeAll(taken) + b + tail == EncodeAll(log) && FrontOf(b) == Complete(msg)
    ensures EncodeAll(taken + [msg]) + b[FrameSize(msg)..] + tail == EncodeAll(log)
    ensures taken + [msg] <= log
    ensures EndMarks(taken + [msg]) <= EndMarks(log)
  {
    var rest := b[FrameSize(msg)..];
    FrameSplit(b, msg);
    EncodeAllSnoc(taken, msg);
    TakeFront(EncodeAll(taken), Encode(msg), rest, tail);
    Regroup(EncodeAll(taken + [msg]), rest, tail);
    FramingIsPrefixFree(taken + [msg], rest + tail, log);
    PrefixEndMarks(taken + [msg], log);
  }

  lemma PrefixEndMarks(a: seq<Message>, b: seq<Message>)
    requires a <= b
    ensures EndMarks(a) <= EndMarks(b)
    ensures Delivered(a) <= Delivered(b)
    ensures EndMarks(a) > 0 ==> Delivered(a) == Delivered(b)
  {
    assert b == a + b[|a|..];
    DeliveredAppend(a, b[|a|..]);
  }

  // ---------- the server's reads ----------

  /** The client queues its request and at most one acknowledgement; the server only ever accepts the request. */
  predicate IsClientLog(log: seq<Message>, m: Message) {
    log == [m] || log == [m, ACK]
  }

  ghost predicate ServerInvariant(sv: LiveServer, served: seq<Message>, disk: Disk, request: Paths)
    requires Fits(request)
  {
    && ServerFacts(sv, Requested(disk, request), disk)
    && (served == [] || served == [RequestMessage(request)])
    && (served == [] ==> Accepted(sv, disk))
    && |sv.tx.pending| <= 504_120
  }

  lemma {:induction false} ReadKeepsServer(b: seq<Byte>, tail: seq<Byte>, log: seq<Message>, sv: LiveServer,
                                           served: seq<Message>, disk: Disk, request: Paths, env: Env,
                                           downstream: seq<Byte>)
    requires Fits(request) && IsClientLog(log, RequestMessage(request))
    requires EncodeAll(served) + b + tail == EncodeAll(log)
    requires ServerInvariant(sv, served, disk, request)
    requires EncodeAll(sv.log) == downstream + sv.tx.pending
    ensures var o := Process(b, sv, OnServerMessage(env));
            && ServerInvariant(o.state, served + o.accepted, disk, request)
            && EncodeAll(o.state.log) == downstream + o.state.tx.pending
            && (o.state == sv || (served == [] && o.state == ServerHandles(sv, RequestMessage(request), env).0))
    decreases |b|
  {
    assert served + [] == served;
    if FrontOf(b).Complete? {
      var msg := FrontOf(b).msg;
      var rest := b[FrameSize(msg)..];
      TakeOne(served, b, tail, log, msg);
      if served == [] {
        assert [] + [msg] == [msg] && msg == log[0];
        RequestKeepsFacts(sv, disk, request, env);
        var (sv', ok) := ServerHandles(sv, msg, env);
        assert downstream == [];
        if ok {
          ReadKeepsServer(rest, tail, log, sv', [msg], disk, request, env, downstream);
          var o := Process(rest, sv', OnServerMessage(env));
          assert served + ([msg] + o.accepted) == [msg] + o.accepted;
        }
      } else {
        assert msg == log[1] == ACK;
        assert ServerHandles(sv, msg, env) == (sv, false);
      }
    }
  }

  // ---------- the whole system ----------

  ghost predicate Invariant(s: System, disk: Disk, request: Paths)
    requires Fits(request)
  {
    var m := RequestMessage(request);
    && (s.alive ==> ServerInvariant(s.server, s.served, disk, request))
    && (!s.alive ==> ServerFacts(s.server, Requested(disk, request), disk) && s.server.session.file.Closed?)
    && ClientFacts(s.client, s.got, m)
    && Stream(s.client.log, s.served, s.serverBuffer, s.up, s.client.tx)
    && Stream(s.server.log, s.got, s.clientBuffer, s.down, s.server.tx)
    && FrontOf(s.clientBuffer) == Incomplete
  }

  lemma InitialInvariant(disk: Disk, request: Paths)
    requires Fits(request)
    ensures Invariant(Initial(disk, request), disk, request)
  {
    var m := RequestMessage(request);
    EncodeAllSnoc([], m);
    assert [] + [m] == [m] && [] + Encode(m) == Encode(m);
    assert Encode(m) == EncodeAll([]) + ([] + [] + Encode(m));
  }

  lemma DestroyKeepsInvariant(s: System, lastWrite: int, disk: Disk, request: Paths)
    requires Fits(request) && Invariant(s, disk, request)
    requires s.alive
    ensures Invariant(Destroy(s, lastWrite), disk, request)
  {
    var p := Post(s.server, LAST_MESSAGE);
    LogOther(s.server.log, LAST_MESSAGE);
    AppendSendable(s.server.log, [LAST_MESSAGE]);
    if p.1 {
      EncodeAllSnoc([], LAST_MESSAGE);
      assert [] + [LAST_MESSAGE] == [LAST_MESSAGE] && [] + Encode(LAST_MESSAGE) == Encode(LAST_MESSAGE);
      StreamWrite(s.server.log, s.got, s.clientBuffer, s.down, s.server.tx, [LAST_MESSAGE], p.0.tx);
    }
    StreamFlush(p.0.log, s.got, s.clientBuffer, s.down, p.0.tx, lastWrite);
  }

  lemma ClientReadKeepsInvariant(s: System, result: int, results: nat -> int, disk: Disk, request: Paths)
    requires Fits(request) && Invariant(s, disk, request)
    ensures Invariant(Step(s, ClientRead(result), results), disk, request)
  {
    var n := ReadSize(s.clientBuffer, s.down, result);
    if !s.client.complete && result >= 0 && n > 0 {
      var o := Process(s.clientBuffer + s.down[..n], s.client, OnClientMessage(results));
      ReceiveKeepsClient(s, n, results, disk, request);
      StreamRead(s.server.log, s.got, s.clientBuffer, s.down, s.server.tx, n, s.client, OnClientMessage(results));
    }
  }

  lemma ReceiveKeepsClient(s: System, n: nat, results: nat -> int, disk: Disk, request: Paths)
    requires Fits(request) && Invariant(s, disk, request) && n <= |s.down|
    ensures var o := Process(s.clientBuffer + s.down[..n], s.client, OnClientMessage(results));
            && ClientFacts(o.state, s.got + o.accepted, RequestMessage(request))
            && Stream(o.state.log, s.served, s.serverBuffer, s.up, o.state.tx)
            && o.verdict == Waiting && FrontOf(o.rest) == Incomplete
  {
    var handle := OnClientMessage(results);
    var b := s.clientBuffer + s.down[..n];
    var o := Process(b, s.client, handle);
    var tail := s.down[n..] + s.server.tx.pending;
    var upstream := EncodeAll(s.served) + (s.serverBuffer + s.up);
    Stretch(EncodeAll(s.got), s.clientBuffer, s.down, n, s.server.tx.pending);
    Regroup(EncodeAll(s.served), s.serverBuffer + s.up, s.client.tx.pending);
    ReadKeepsClient(b, tail, s.server.log, s.client, s.got, RequestMessage(request), results, upstream);
    Regroup(EncodeAll(s.served), s.serverBuffer + s.up, o.state.tx.pending);
    StreamRead(s.server.log, s.got, s.clientBuffer, s.down, s.server.tx, n, s.client, handle);
    Stretch(EncodeAll(s.got + o.accepted), o.rest, s.down[n..], 0, s.server.tx.pending);
    assert o.rest + s.down[n..][..0] == o.rest && s.down[n..][0..] == s.down[n..];
    NothingMalformed(s.server.log, s.got + o.accepted, o.rest, tail, b, s.client, handle);
  }

  /** The same bytes, cut at what one read takes from the wire. */
  lemma Stretch(t: seq<Byte>, buffer: seq<Byte>, wire: seq<Byte>, n: nat, p: seq<Byte>)
    requires n <= |wire|
    ensures t + (buffer + wire[..n]) + (wire[n..] + p) == t + (buffer + wire + p)
  {
    assert buffer + wire + p == (buffer + wire[..n]) + (wire[n..] + p);
  }

  /** A client whose handler accepts everything never meets a malformed or half-consumed front. */
  lemma NothingMalformed(log: seq<Message>, got: seq<Message>, rest: seq<Byte>, tail: seq<Byte>, b: seq<Byte>,
                         c: LiveClient, handle: (LiveClient, Message) -> (LiveClient, bool))
    requires forall t, m :: handle(t, m).1
    requires AllSendable(log) && rest == Process(b, c, handle).rest
    requires EncodeAll(got) + rest + tail == EncodeAll(log)
    ensures FrontOf(rest) == Incomplete && Process(b, c, handle).verdict == Waiting
    ensures |rest| < HEADER_SIZE + MAX_MESSAGE_DATA
  {
    ProcessVerdict(b, c, handle);
    LeftoverIsShort(got, rest, tail, log);
    var ahead := log[|got|..];
    if ahead != [] {
      StrictPrefixIsIncomplete(rest, ahead[0]);
    }
  }

  lemma ServerReadKeepsInvariant(s: System, result: int, env: Env, lastWrite: int, results: nat -> int,
                                 disk: Disk, request: Paths)
    requires Fits(request) && Invariant(s, disk, request)
    ensures Invariant(Step(s, ServerRead(result, env, lastWrite), results), disk, request)
  {
    var n := ReadSize(s.serverBuffer, s.up, result);
    if s.alive {
      if result < 0 {
        DestroyKeepsInvariant(s, lastWrite, disk, request);
      } else if n > 0 {
        var s' := AfterServerRead(s, n, env);
        ServeKeepsInvariant(s, n, env, disk, request);
        DestroyKeepsInvariant(s', lastWrite, disk, request);
      }
    }
  }

  function AfterServerRead(s: System, n: nat, env: Env): System
    requires n <= |s.up|
  {
    var o := Process(s.serverBuffer + s.up[..n], s.server, OnServerMessage(env));
    s.(serverBuffer := o.rest, served := s.served + o.accepted, up := s.up[n..], server := o.state)
  }

  lemma ServeKeepsInvariant(s: System, n: nat, env: Env, disk: Disk, request: Paths)
    requires Fits(request) && Invariant(s, disk, request) && s.alive && n <= |s.up|
    ensures Invariant(AfterServerRead(s, n, env), disk, request)
    ensures var sv' := AfterServerRead(s, n, env).server;
            || sv' == s.server
            || (s.served == [] && sv' == ServerHandles(s.server, RequestMessage(request), env).0)
  {
    var b := s.serverBuffer + s.up[..n];
    var handle := OnServerMessage(env);
    var o := Process(b, s.server, handle);
    var tail := s.up[n..] + s.client.tx.pending;
    var downstream := EncodeAll(s.got) + (s.clientBuffer + s.down);
    Stretch(EncodeAll(s.served), s.serverBuffer, s.up, n, s.client.tx.pending);
    Regroup(EncodeAll(s.got), s.clientBuffer + s.down, s.server.tx.pending);
    ReadKeepsServer(b, tail, s.client.log, s.server, s.served, disk, request, env, downstream);
    Regroup(EncodeAll(s.got), s.clientBuffer + s.down, o.state.tx.pending);
    StreamRead(s.client.log, s.served, s.serverBuffer, s.up, s.client.tx, n, s.server, handle);
  }

  lemma SendKeepsStream(s: System, sv': LiveServer)
    requires Stream(s.server.log, s.got, s.clientBuffer, s.down, s.server.tx)
    requires Appended(SenderOf(s.server), SenderOf(sv'))
    ensures Stream(sv'.log, s.got, s.clientBuffer, s.down, sv'.tx)
  {
    var more := sv'.log[|s.server.log|..];
    assert sv'.log == s.server.log + more;
    StreamWrite(s.server.log, s.got, s.clientBuffer, s.down, s.server.tx, more, sv'.tx);
  }

  lemma ServerSendKeepsInvariant(s: System, readAt: nat -> int, results: nat -> int, disk: Disk, request: Paths)
    requires Fits(request) && Invariant(s, disk, request)
    ensures Invariant(Step(s, ServerSend(readAt), results), disk, request)
  {
    if s.alive && s.server.session.file.Open? && !s.server.tx.Saturated() {
      SendKeepsFacts(s.server, Requested(disk, request), disk, readAt);
      SendKeepsStream(s, SendData(s.server, readAt));
    }
  }

  lemma ClientFlushKeepsInvariant(s: System, result: int, results: nat -> int, disk: Disk, request: Paths)
    requires Fits(request) && Invariant(s, disk, request)
    ensures Invariant(Step(s, ClientFlush(result), results), disk, request)
  {
    StreamFlush(s.client.log, s.served, s.serverBuffer, s.up, s.client.tx, result);
  }

  lemma ServerFlushKeepsInvariant(s: System, result: int, results: nat -> int, disk: Disk, request: Paths)
    requires Fits(request) && Invariant(s, disk, request)
    ensures Invariant(Step(s, ServerFlush(result), results), disk, request)
  {
    if s.alive {
      StreamFlush(s.server.log, s.got, s.clientBuffer, s.down, s.server.tx, result);
      FlushKeepsServer(s.server, s.served, result, disk, request);
    }
  }

  lemma FlushKeepsServer(sv: LiveServer, served: seq<Message>, result: int, disk: Disk, request: Paths)
    requires Fits(request) && ServerInvariant(sv, served, disk, request)
    ensures ServerInvariant(sv.(tx := Flush(sv.tx, result)), served, disk, request)
  {
    var sv' := sv.(tx := Flush(sv.tx, result));
    assert Source(sv') == Source(sv);
    assert served == [] ==> sv' == sv;
  }

  lemma StepKeepsInvariant(s: System, a: Action, results: nat -> int, disk: Disk, request: Paths)
    requires Fits(request) && Invariant(s, disk, request)
    ensures Invariant(Step(s, a, results), disk, request)
  {
    match a
    case ClientFlush(result) => ClientFlushKeepsInvariant(s, result, results, disk, request);
    case ServerFlush(result) => ServerFlushKeepsInvariant(s, result, results, disk, request);
    case ClientRead(result) => ClientReadKeepsInvariant(s, result, results, disk, request);
    case ServerRead(result, env, lastWrite) =>
      ServerReadKeepsInvariant(s, result, env, lastWrite, results, disk, request);
    case ServerSend(readAt) => ServerSendKeepsInvariant(s, readAt, results, disk, request);
  }

  lemma {:induction false} RunKeepsInvariant(disk: Disk, request: Paths, actions: seq<Action>, results: nat -> int)
    requires Fits(request)
    ensures Invariant(Run(Initial(disk, request), actions, results), disk, request)
    decreases |actions|
  {
    if actions == [] {
      InitialInvariant(disk, request);
    } else {
      var n := |actions| - 1;
      RunKeepsInvariant(disk, request, actions[..n], results);
      StepKeepsInvariant(Run(Initial(disk, request), actions[..n], results), actions[n], results, disk, request);
    }
  }

  // ---------- main results ----------

  /** The messages between the server's queue and the client's handler, in order. */
  function InTransit(s: System): seq<Message> {
    Parse(s.clientBuffer + s.down + s.server.tx.pending).msgs
  }

  lemma TransitIsTheUnreadLog(s: System)
    requires Stream(s.server.log, s.got, s.clientBuffer, s.down, s.server.tx)
    ensures s.server.log == s.got + InTransit(s)
    ensures Parse(s.clientBuffer + s.down + s.server.tx.pending).rest == []
  {
    EncodedTail(s.server.log, s.got, s.clientBuffer + s.down + s.server.tx.pending);
  }

  lemma EncodedTail(log: seq<Message>, got: seq<Message>, b: seq<Byte>)
    requires EncodeAll(log) == EncodeAll(got) + b
    ensures log == got + Parse(b).msgs && Parse(b).rest == []
  {
    FramingIsPrefixFree(got, b, log);
    var ahead := log[|got|..];
    ParseInvertsEncode(ahead, []);
    assert EncodeAll(ahead) + [] == b;
  }

  /** The bytes of the source behind the position of the server's open file. */
  function Unread(s: System, src: seq<Byte>): seq<Byte> {
    if s.server.session.file.Open? && s.server.session.file.pos <= |src| then src[s.server.session.file.pos..] else []
  }

  /**
   In every state of every run, while the server has the file open and no local write was short:
   what is in the client's file, what is in transit and what the server has not read yet are
   together exactly the source file.
   */
  lemma DownloadConservation(disk: Disk, request: Paths, actions: seq<Action>, results: nat -> int)
    requires Fits(request)
    ensures var s := Run(Initial(disk, request), actions, results);
            var src := Requested(disk, request);
            s.server.session.file.Open? && !s.client.short ==>
              s.client.local + Delivered(InTransit(s)) + Unread(s, src) == src
  {
    RunKeepsInvariant(disk, request, actions, results);
    Conservation(Run(Initial(disk, request), actions, results), disk, request);
  }

  lemma Conservation(s: System, disk: Disk, request: Paths)
    requires Fits(request) && Invariant(s, disk, request)
    ensures s.server.session.file.Open? && !s.client.short ==>
              s.client.local + Delivered(InTransit(s)) + Unread(s, Requested(disk, request)) == Requested(disk, request)
  {
    TransitIsTheUnreadLog(s);
    if s.server.session.file.Open? {
      SplitOfSource(s.server.log, s.got, InTransit(s), Requested(disk, request), s.server.session.file.pos);
    }
  }

  lemma SplitOfSource(log: seq<Message>, got: seq<Message>, transit: seq<Message>, src: seq<Byte>, pos: nat)
    requires log == got + transit && EndMarks(log) == 0
    requires pos <= |src| && Delivered(log) == src[..pos]
    ensures Delivered(got) + Delivered(transit) + src[pos..] == src
  {
    DeliveredAppend(got, transit);
  }

  /**
   The client's file is always a prefix of the source, and it is the whole source once the client
   has seen the end mark, however often the transfer was paused, cut or resumed.  After the end
   mark it is the source if and only if no local write was short.
   */
  lemma DownloadIsPrefixAndCompletionIsWhole(disk: Disk, request: Paths, actions: seq<Action>, results: nat -> int)
    requires Fits(request)
    ensures var s := Run(Initial(disk, request), actions, results);
            var src := Requested(disk, request);
            && (!s.client.short ==> s.client.local <= src)
            && (EndMarks(s.got) > 0 ==> (s.client.local == src <==> !s.client.short))
            && (!s.client.open <==> EndMarks(s.got) > 0)
  {
    var s := Run(Initial(disk, request), actions, results);
    RunKeepsInvariant(disk, request, actions, results);
    TransitIsTheUnreadLog(s);
    PrefixEndMarks(s.got, s.server.log);
  }

  /** With paths that survive the request, the completed file is the one the client asked for by name. */
  lemma CompletedFileIsTheRequestedOne(disk: Disk, request: Paths, actions: seq<Action>, results: nat -> int)
    requires Fits(request) && IsCString(request.source) && IsCString(request.destination)
    requires IsToken(request.source) && IsToken(request.destination)
    requires var s := Run(Initial(disk, request), actions, results);
             EndMarks(s.got) > 0 && !s.client.short
    ensures Run(Initial(disk, request), actions, results).client.local == Contents(disk, request.source)
  {
    RequestRoundTripIff(request, []);
    assert Payload(request, []) == Printed(request);
    DownloadIsPrefixAndCompletionIsWhole(disk, request, actions, results);
  }

  /**
   In no run does the transport fail: the client is given a prefix of what the server queued,
   its reassembler never meets a malformed front and always has room for 95,893 more bytes, and the
   server's ring never holds more than 504,120 bytes.
   */
  lemma DownloadTransportNeverFails(disk: Disk, request: Paths, actions: seq<Action>, results: nat -> int)
    requires Fits(request)
    ensures var s := Run(Initial(disk, request), actions, results);
            && s.got <= s.server.log
            && s.served <= s.client.log
            && FrontOf(s.clientBuffer) == Incomplete
            && MAX_RX_BUFFER - |s.clientBuffer| >= 95_893
            && (s.alive ==> |s.server.tx.pending| <= 504_120)
            && s.server.disk == disk
  {
    RunKeepsInvariant(disk, request, actions, results);
    TransportHolds(Run(Initial(disk, request), actions, results), disk, request);
  }

  lemma TransportHolds(s: System, disk: Disk, request: Paths)
    requires Fits(request) && Invariant(s, disk, request)
    ensures s.got <= s.server.log && s.served <= s.client.log
    ensures MAX_RX_BUFFER - |s.clientBuffer| >= 95_893
  {
    FramingIsPrefixFree(s.served, s.serverBuffer + s.up + s.client.tx.pending, s.client.log);
    var tail := s.down + s.server.tx.pending;
    Regroup(s.clientBuffer, s.down, s.server.tx.pending);
    Regroup(EncodeAll(s.got), s.clientBuffer, tail);
    LeftoverIsShort(s.got, s.clientBuffer, tail, s.server.log);
  }

  lemma DrainedIsDelivered(s: System, disk: Disk, request: Paths)
    requires Fits(request) && Invariant(s, disk, request)
    requires s.down == [] && s.server.tx.pending == []
    ensures s.got == s.server.log && s.clientBuffer == []
  {
    TransitIsTheUnreadLog(s);
    assert s.clientBuffer + s.down + s.server.tx.pending == s.clientBuffer;
    assert Parse(s.clientBuffer) == Parsed([], s.clientBuffer);
    assert s.got + [] == s.got;
  }

  /** A drained connection has handed every queued message to the client. */
  lemma DrainedDownloadIsDelivered(disk: Disk, request: Paths, actions: seq<Action>, results: nat -> int)
    requires Fits(request)
    requires var s := Run(Initial(disk, request), actions, results);
             s.down == [] && s.server.tx.pending == []
    ensures var s := Run(Initial(disk, request), actions, results);
            s.got == s.server.log && s.clientBuffer == []
  {
    RunKeepsInvariant(disk, request, actions, results);
    DrainedIsDelivered(Run(Initial(disk, request), actions, results), disk, request);
  }
}
