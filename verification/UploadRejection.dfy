/**
 What becomes of an upload.  The client announces its data with a begin mark, which the server's
 dispatcher does not know: whatever the client queues behind its request, the server stops there.
 */
module UploadRejection {
  import opened Frames
  import opened TxRing
  import opened Reassembly
  import opened Options
  import opened Requests
  import opened FileSending
  import opened ServerProtocol
  import opened HandlerOutcomes
  import opened Download

  /** A server that has just accepted a connection. */
  function Fresh(disk: Disk): LiveServer {
    Server(NewSession(), disk, Tx(0, []), [])
  }

  /** The new file may have been created; it is empty, and nothing else has changed. */
  predicate StoresNothing(disk: Disk, disk': Disk, p: Option<Paths>) {
    disk' == disk || (p.Some? && p.value.destination !in disk && disk' == disk[p.value.destination := Regular([])])
  }

  /** A server on a fresh connection, after it has read these chunks. */
  function ServerAfter(disk: Disk, chunks: seq<seq<Byte>>, env: Env): Reader<LiveServer> {
    ReadAll(Reader([], Fresh(disk), []), chunks, OnServerMessage(env))
  }

  /** Where a server stands that is given an upload request and then a begin mark. */
  ghost predicate StopsAtBegin(r: Reader<LiveServer>, start: Message, disk: Disk) {
    && StoresNothing(disk, r.state.disk, ParseRequest(start.data))
    && (r.accepted == [] ==> r.state == Fresh(disk))
    && (r.accepted != [] ==> r.accepted == [start])
  }

  /** A complete frame at the front of the buffer is the next message that was queued. */
  lemma FrontIsNext(accepted: seq<Message>, buffer: seq<Byte>, rest: seq<Byte>, ms: seq<Message>)
    requires EncodeAll(accepted) + (buffer + rest) == EncodeAll(ms) && FrontOf(buffer).Complete?
    ensures |accepted| < |ms| && accepted <= ms && FrontOf(buffer).msg == ms[|accepted|]
  {
    FramingIsPrefixFree(accepted, buffer + rest, ms);
    FrontIsStable(buffer, rest);
    var ahead := ms[|accepted|..];
    if ahead != [] {
      EncodingIsFront(buffer + rest, ahead[0]);
    }
  }

  lemma RequestIsHandled(start: Message, disk: Disk, env: Env)
    requires start.kind == FILE_UPLOAD_START
    ensures var (sv', ok) := ServerHandles(Fresh(disk), start, env);
            && StoresNothing(disk, sv'.disk, ParseRequest(start.data))
            && (!ok ==> sv' == Fresh(disk))
  {
    match ParseRequest(start.data)
    case None => MalformedRequestOutcome(Fresh(disk), start, env);
    case Some(p) => UploadRequestOutcome(Fresh(disk), start, p, env);
  }

  /** A server that has accepted the request rejects what comes next, and changes nothing. */
  lemma BeginIsRejected(b: seq<Byte>, sv: LiveServer, env: Env)
    requires FrontOf(b).Complete? ==> FrontOf(b).msg == BEGIN_MARK
    ensures var o := Process(b, sv, OnServerMessage(env));
            o.state == sv && o.accepted == [] && o.rest == b
  {
    UnknownOutcome(sv, BEGIN_MARK, env);
  }

  /** Behind the request there is nothing complete but a begin mark. */
  lemma BeginIsNext(b: seq<Byte>, rest: seq<Byte>, start: Message, sent: seq<Message>)
    requires sent != [] ==> sent[0] == BEGIN_MARK
    requires b + rest == EncodeAll([start] + sent) && FrontOf(b) == Complete(start)
    ensures |b| >= FrameSize(start)
    ensures FrontOf(b[FrameSize(start)..]).Complete? ==> FrontOf(b[FrameSize(start)..]).msg == BEGIN_MARK
  {
    FrameSplit(b, start);
    var tail := b[FrameSize(start)..];
    Regroup(Encode(start), tail, rest);
    EncodeAllCons(start, []);
    assert [start] + [] == [start];
    if FrontOf(tail).Complete? {
      FrontIsNext([start], tail, rest, [start] + sent);
    }
  }

  /** The request is handled, and what comes next is not. */
  lemma RequestThenBegin(b: seq<Byte>, rest: seq<Byte>, start: Message, sent: seq<Message>, disk: Disk, env: Env)
    requires sent != [] ==> sent[0] == BEGIN_MARK
    requires b + rest == EncodeAll([start] + sent) && FrontOf(b) == Complete(start)
    ensures var o := Process(b, Fresh(disk), OnServerMessage(env));
            var (sv', ok) := ServerHandles(Fresh(disk), start, env);
            o.state == sv' && o.accepted == (if ok then [start] else [])
  {
    BeginIsNext(b, rest, start, sent);
    BeginIsRejected(b[FrameSize(start)..], ServerHandles(Fresh(disk), start, env).0, env);
  }

  lemma ReadStops(r: Reader<LiveServer>, chunk: seq<Byte>, rest: seq<Byte>, start: Message, sent: seq<Message>,
                  disk: Disk, env: Env)
    requires start.kind == FILE_UPLOAD_START && (sent != [] ==> sent[0] == BEGIN_MARK)
    requires StopsAtBegin(r, start, disk)
    requires EncodeAll(r.accepted) + (r.buffer + chunk + rest) == EncodeAll([start] + sent)
    ensures StopsAtBegin(ReadChunk(r, chunk, OnServerMessage(env)), start, disk)
  {
    var b := r.buffer + chunk;
    if FrontOf(b).Complete? {
      FrontIsNext(r.accepted, b, rest, [start] + sent);
    }
    if r.accepted != [] || !FrontOf(b).Complete? {
      BeginIsRejected(b, r.state, env);
      assert r.accepted + [] == r.accepted;
    } else {
      assert [] + (b + rest) == b + rest;
      RequestIsHandled(start, disk, env);
      RequestThenBegin(b, rest, start, sent, disk, env);
      assert [] + [start] == [start];
    }
  }

  lemma {:induction false} ReadsStop(chunks: seq<seq<Byte>>, rest: seq<Byte>, start: Message, sent: seq<Message>,
                                     disk: Disk, env: Env)
    requires start.kind == FILE_UPLOAD_START && (sent != [] ==> sent[0] == BEGIN_MARK)
    requires Flatten(chunks) + rest == EncodeAll([start] + sent)
    ensures StopsAtBegin(ServerAfter(disk, chunks, env), start, disk)
    decreases |chunks|
  {
    if chunks == [] {
    } else {
      var n := |chunks| - 1;
      var r := ServerAfter(disk, chunks[..n], env);
      Regroup(Flatten(chunks[..n]), chunks[n], rest);
      ReadsStop(chunks[..n], chunks[n] + rest, start, sent, disk, env);
      AcceptedExactlyOnce(Fresh(disk), chunks[..n], OnServerMessage(env));
      Regroup(r.buffer, chunks[n], rest);
      Regroup(EncodeAll(r.accepted), r.buffer, chunks[n] + rest);
      ReadStops(r, chunks[n], rest, start, sent, disk, env);
    }
  }

  /**
   No upload stores a byte.  Whatever calls, pauses and flushes the client's sender goes through behind its
   request, and however the bytes reach the server: the server accepts the request at most, the new
   file stays empty, and every other file is as it was.
   */
  lemma UploadStoresNothing(disk: Disk, start: Message, src: seq<Byte>, tx: Tx, actions: seq<SendAction>,
                            chunks: seq<seq<Byte>>, rest: seq<Byte>, env: Env)
    requires tx.Valid() && start.kind == FILE_UPLOAD_START
    requires Flatten(chunks) + rest ==
             EncodeAll([start] + SendRun(Sender(true, false, 0, tx, []), src, true, actions).log)
    ensures var r := ServerAfter(disk, chunks, env);
            r.accepted <= [start] && StoresNothing(disk, r.state.disk, ParseRequest(start.data))
  {
    TransferLanguage(tx, src, true, actions);
    ReadsStop(chunks, rest, start, SendRun(Sender(true, false, 0, tx, []), src, true, actions).log, disk, env);
  }
}
