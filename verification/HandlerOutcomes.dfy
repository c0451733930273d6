/**
 What every message does to a session, case by case: whether it is accepted, what it leaves of
 session and disk, and what it queues.  A message is queued if and only if its frame fits the
 contiguous room of the ring.
 */
module HandlerOutcomes {
  import opened Frames
  import opened TxRing
  import opened Options
  import opened Requests
  import opened ServerProtocol

  /** Queued: the log and the pending bytes grow by the message.  Refused: neither changes. */
  predicate Queued(sv: Server, sv': Server, m: Message, ok: bool)
    requires sv.tx.Valid()
  {
    && (ok <==> FrameSize(m) <= sv.tx.Room())
    && (ok ==> sv'.log == sv.log + [m])
    && (ok && |sv.tx.pending| + FrameSize(m) < MAX_TX_BUFFER ==>
          sv'.tx.start == sv.tx.start && sv'.tx.pending == sv.tx.pending + Encode(m))
    && (!ok ==> sv'.log == sv.log && sv'.tx == sv.tx)
  }

  lemma PostQueues(sv: Server, m: Message)
    requires sv.tx.Valid()
    ensures var (sv', ok) := Post(sv, m);
            Queued(sv, sv', m, ok) && sv'.session == sv.session && sv'.disk == sv.disk
  {
    ContiguousSpaceDecides(sv.tx, Encode(m));
  }

  /** The queue of the connection is as it was. */
  predicate QueuesNothing(sv: Server, sv': Server) {
    sv'.log == sv.log && sv'.tx == sv.tx
  }

  /** A request without two paths is rejected and changes nothing. */
  lemma MalformedRequestOutcome(sv: Server, m: Message, env: Env)
    requires sv.tx.Valid() && (m.kind == FILE_UPLOAD_START || m.kind == FILE_DOWNLOAD_START)
    requires ParseRequest(m.data).None?
    ensures Handle(sv, m, env) == (sv, false)
  {
  }

  /** An upload request is answered, once; it creates and opens the destination, or leaves the disk alone. */
  lemma UploadRequestOutcome(sv: Server, m: Message, p: Paths, env: Env)
    requires sv.tx.Valid() && m.kind == FILE_UPLOAD_START && ParseRequest(m.data) == Some(p)
    ensures var (sv', ok) := Handle(sv, m, env);
            var text := AnswerUpload(sv.session, sv.disk, p, env).text;
            var granted := p.destination !in sv.disk && env.parentExists && env.openOk;
            && Queued(sv, sv', RawMessage(FILE_READY_SEND, Response(text)), ok)
            && (SaysOk(Response(text)) <==> granted)
            && sv'.disk == (if granted then sv.disk[p.destination := Regular([])] else sv.disk)
            && sv'.session ==
               if granted then sv.session.(file := Open(p.destination, CreatedForWriting, 0), kind := FileUpload)
               else if p.destination !in sv.disk && env.parentExists then sv.session.(file := Closed)
               else sv.session
  {
    var a := AnswerUpload(sv.session, sv.disk, p, env);
    RequestsAreDispatched(sv, m, env);
    UploadAnswerSaysOkIff(sv.session, sv.disk, p, env);
    UploadIsPosted(sv, m, p, env, a);
    PostQueues(sv.(session := a.session, disk := a.disk), RawMessage(FILE_READY_SEND, Response(a.text)));
  }

  /** A download request is answered, once; it opens the source for reading, and never changes the disk. */
  lemma DownloadRequestOutcome(sv: Server, m: Message, p: Paths, env: Env)
    requires sv.tx.Valid() && m.kind == FILE_DOWNLOAD_START && ParseRequest(m.data) == Some(p)
    ensures var (sv', ok) := Handle(sv, m, env);
            var text := AnswerDownload(sv.session, sv.disk, p, env).text;
            var readable := p.source in sv.disk && sv.disk[p.source].Regular?;
            && Queued(sv, sv', RawMessage(FILE_READY_RECV, Response(text)), ok)
            && (SaysOk(Response(text)) <==> readable && env.openOk)
            && sv'.disk == sv.disk
            && sv'.session ==
               if !readable then sv.session
               else if !env.openOk then sv.session.(file := Closed)
               else sv.session.(file := Open(p.source, ReadOnly, 0), kind := FileDownload)
  {
    var a := AnswerDownload(sv.session, sv.disk, p, env);
    RequestsAreDispatched(sv, m, env);
    DownloadAnswerSaysOkIff(sv.session, sv.disk, p, env);
    DownloadIsPosted(sv, m, p, env, a);
    PostQueues(sv.(session := a.session, disk := a.disk), RawMessage(FILE_READY_RECV, Response(a.text)));
  }

  /**
   Data outside an upload is rejected and changes nothing.  In an upload `write()` takes a prefix of
   it, or nothing if it fails; the file grows by that prefix, and only the whole payload is accepted.
   */
  lemma DataOutcome(sv: Server, m: Message, env: Env)
    requires SessionInvariant(sv, map[]) && m.kind == FILE_DATA
    ensures var (sv', ok) := Handle(sv, m, env);
            && QueuesNothing(sv, sv')
            && (ok <==> Uploading(sv) && env.written >= |m.data|)
            && (!Uploading(sv) || env.written < 0 ==> sv' == sv)
            && (Uploading(sv) && env.written >= 0 ==>
                  var f := sv.session.file;
                  var taken := if env.written < |m.data| then m.data[..env.written] else m.data;
                  && sv'.session == sv.session.(file := f.(pos := f.pos + |taken|))
                  && sv'.disk == sv.disk[f.path := Regular(Contents(sv.disk, f.path) + taken)])
  {
    assert Handle(sv, m, env) == HandleData(sv, m, env);
    assert m.data[..|m.data|] == m.data;
  }

  /** Opening a terminal changes the kind of the session even if it fails, and nothing of its file. */
  lemma TerminalOutcome(sv: Server, m: Message, env: Env)
    requires sv.tx.Valid() && (m.kind == OPEN_BASH || m.kind == OPEN_CMD)
    ensures var (sv', ok) := Handle(sv, m, env);
            && (ok <==> env.deviceOk)
            && QueuesNothing(sv, sv') && sv'.disk == sv.disk
            && sv'.session == sv.session.(kind := if m.kind == OPEN_BASH then Bash else Cmd,
                                          pty := sv.session.pty || env.deviceOk)
  {
  }

  /** Nothing of an open file is sent while the session is not a download: opening a terminal stops one. */
  lemma TerminalStopsDownload(sv: Server, m: Message, env: Env, readAt: nat -> int)
    requires ValidServer(sv) && (m.kind == OPEN_BASH || m.kind == OPEN_CMD)
    ensures var sv' := Handle(sv, m, env).0;
            ValidServer(sv') && SendData(sv', readAt) == sv'
  {
    TerminalOutcome(sv, m, env);
    HandleKeepsValid(sv, m, env);
  }

  /** Input and window sizes need a terminal; a window size must have the size of the structure. */
  lemma TerminalInputOutcome(sv: Server, m: Message, env: Env)
    requires sv.tx.Valid()
    ensures m.kind == CLIENT_DATA ==> Handle(sv, m, env) == (sv, sv.session.pty && env.written >= 0)
    ensures m.kind == WINDOW_SIZE ==> Handle(sv, m, env) == (sv, sv.session.pty && |m.data| == 8 && env.deviceOk)
  {
  }

  /** The kinds of message the server's dispatcher knows. */
  predicate IsKnown(kind: UInt32) {
    kind in {OPEN_BASH, OPEN_CMD, WINDOW_SIZE, CLIENT_DATA, FILE_UPLOAD_START, FILE_DOWNLOAD_START, FILE_DATA,
             FILE_DATA_END}
  }

  /** All others are rejected and change nothing, the begin mark and the acknowledgement of a client among them. */
  lemma UnknownOutcome(sv: Server, m: Message, env: Env)
    requires sv.tx.Valid() && !IsKnown(m.kind)
    ensures Handle(sv, m, env) == (sv, false)
    ensures !IsKnown(FILE_DATA_BEGIN) && !IsKnown(FILE_DATA_END_ACK)
  {
  }

  /** Output of a terminal is queued in one message of at most 4096 bytes, or lost if there is no room. */
  lemma PtyDataOutcome(sv: Server, data: seq<Byte>)
    requires sv.tx.Valid()
    ensures var sv' := HandlePtyData(sv, data);
            if !sv.session.pty || data == [] then sv' == sv
            else
              var taken := if |data| < MAX_MESSAGE_DATA then data else data[..MAX_MESSAGE_DATA];
              && sv'.session == sv.session && sv'.disk == sv.disk
              && Queued(sv, sv', RawMessage(PTY_DATA, taken), HEADER_SIZE + |taken| <= sv.tx.Room())
  {
    if sv.session.pty && data != [] {
      var taken := if |data| < MAX_MESSAGE_DATA then data else data[..MAX_MESSAGE_DATA];
      assert data[..|data|] == data;
      PostQueues(sv, RawMessage(PTY_DATA, taken));
    }
  }

  /** A send call does nothing unless a file is open and the session is a download. */
  lemma SendDataOutcome(sv: Server, readAt: nat -> int)
    requires ValidServer(sv)
    ensures sv.session.file.Closed? || sv.session.kind != FileDownload ==> SendData(sv, readAt) == sv
    ensures var sv' := SendData(sv, readAt);
            sv'.disk == sv.disk && sv'.session.kind == sv.session.kind && sv'.session.pty == sv.session.pty
  {
  }
}
