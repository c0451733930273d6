/**
 Which files a client can read and write: only those its own requests name, a file it has
 uploaded among them.
 */
module PathAccess {
  import opened Frames
  import opened TxRing
  import opened Options
  import opened Requests
  import opened FileSending
  import opened ServerProtocol

  /** The server after a new session has seen some events. */
  function Serving(disk: Disk, tx: Tx, es: seq<Event>): (sv: Server)
    requires tx.Valid()
    ensures ValidServer(sv)
  {
    ApplyAll(Server(NewSession(), disk, tx, []), es)
  }

  /** `e` is a request for `f`: a download that names its path, or the upload that creates it. */
  predicate Asks(e: Event, f: File)
    requires f.Open?
  {
    && e.Message? && ParseRequest(e.msg.data).Some?
    && var p := ParseRequest(e.msg.data).value;
       if f.mode == ReadOnly then e.msg.kind == FILE_DOWNLOAD_START && p.source == f.path
       else e.msg.kind == FILE_UPLOAD_START && p.destination == f.path
  }

  ghost predicate WasRequested(es: seq<Event>, f: File)
    requires f.Open?
  {
    exists i :: 0 <= i < |es| && Asks(es[i], f)
  }

  lemma StartOpensRequested(sv: Server, m: Frames.Message, env: Env)
    requires sv.tx.Valid()
    ensures var f := HandleUploadStart(sv, m, env).0.session.file;
            f.Open? ==> f == sv.session.file || (ParseRequest(m.data).Some? && f.mode == CreatedForWriting
                                                 && f.path == ParseRequest(m.data).value.destination)
    ensures var f := HandleDownloadStart(sv, m, env).0.session.file;
            f.Open? ==> f == sv.session.file || (ParseRequest(m.data).Some? && f.mode == ReadOnly
                                                 && f.path == ParseRequest(m.data).value.source)
  {
    if ParseRequest(m.data).Some? {
      var p := ParseRequest(m.data).value;
      assert HandleUploadStart(sv, m, env).0.session == AnswerUpload(sv.session, sv.disk, p, env).session;
      assert HandleDownloadStart(sv, m, env).0.session == AnswerDownload(sv.session, sv.disk, p, env).session;
    }
  }

  /** A message that is not a request keeps the path and mode of the open file, or closes it. */
  lemma OtherMessagesOpenNothing(sv: Server, m: Frames.Message, env: Env)
    requires sv.tx.Valid() && m.kind != FILE_UPLOAD_START && m.kind != FILE_DOWNLOAD_START
    ensures var f, f' := sv.session.file, Handle(sv, m, env).0.session.file;
            f'.Open? ==> f.Open? && f'.path == f.path && f'.mode == f.mode
  {
    if m.kind == FILE_DATA && sv.session.file.Open? && sv.session.kind == FileUpload {
      WriteFileCases(sv, m.data, env.written);
    }
  }

  lemma MessageOpensRequested(sv: Server, m: Frames.Message, env: Env)
    requires ValidServer(sv)
    ensures var f, f' := sv.session.file, Handle(sv, m, env).0.session.file;
            f'.Open? ==> Asks(Event.Message(m, env), f') || (f.Open? && f'.path == f.path && f'.mode == f.mode)
  {
    if m.kind == FILE_UPLOAD_START {
      StartOpensRequested(sv, m, env);
      RequestsAreDispatched(sv, m, env);
    } else if m.kind == FILE_DOWNLOAD_START {
      StartOpensRequested(sv, m, env);
      RequestsAreDispatched(sv, m, env);
    } else {
      OtherMessagesOpenNothing(sv, m, env);
    }
  }

  /** One event keeps the path and mode of the open file, or closes it, or is the request that opens one. */
  lemma ApplyOpensRequested(sv: Server, e: Event)
    requires ValidServer(sv)
    ensures var f, f' := sv.session.file, Apply(sv, e).session.file;
            f'.Open? ==> Asks(e, f') || (f.Open? && f'.path == f.path && f'.mode == f.mode)
  {
    if e.Message? {
      MessageOpensRequested(sv, e.msg, e.env);
    }
  }

  /** In every session, an open file has been named by a request of the fitting kind. */
  lemma {:induction false} OpenFileWasRequested(disk: Disk, tx: Tx, es: seq<Event>)
    requires tx.Valid()
    ensures var f := Serving(disk, tx, es).session.file;
            f.Open? ==> WasRequested(es, f)
    decreases |es|
  {
    if es == [] {
    } else {
      var n := |es| - 1;
      OpenFileWasRequested(disk, tx, es[..n]);
      ApplyOpensRequested(Serving(disk, tx, es[..n]), es[n]);
      var f := Serving(disk, tx, es).session.file;
      if f.Open? && !Asks(es[n], f) {
        var i :| 0 <= i < n && Asks(es[..n][i], Serving(disk, tx, es[..n]).session.file);
        assert Asks(es[i], f);
      }
    }
  }

  lemma SendExtendsLog(sv: Server, readAt: nat -> int)
    requires ValidServer(sv)
    ensures var sv' := SendData(sv, readAt);
            && sv.log <= sv'.log
            && var sent := Delivered(sv'.log[|sv.log|..]);
               sent != [] ==> sv.session.kind == FileDownload && sv.session.file.Open?
                              && sent <= Source(sv)[sv.session.file.pos..]
  {
    if sv.session.file.Open? && sv.session.kind == FileDownload {
      CallExtendsLog(SenderOf(sv), Source(sv), ReadResults(sv, readAt));
    } else {
      assert sv.log[|sv.log|..] == [];
    }
  }

  lemma PostSendsNoData(sv: Server, m: Frames.Message)
    requires sv.tx.Valid() && m.kind != FILE_DATA
    ensures var log := Post(sv, m).0.log;
            sv.log <= log && Delivered(log[|sv.log|..]) == []
  {
    assert sv.log[|sv.log|..] == [] && (sv.log + [m])[|sv.log|..] == [m];
    DeliveredOne(m);
  }

  lemma StartsSendNoData(sv: Server, m: Frames.Message, env: Env)
    requires sv.tx.Valid()
    ensures var log := HandleUploadStart(sv, m, env).0.log;
            sv.log <= log && Delivered(log[|sv.log|..]) == []
    ensures var log := HandleDownloadStart(sv, m, env).0.log;
            sv.log <= log && Delivered(log[|sv.log|..]) == []
  {
    assert sv.log[|sv.log|..] == [];
    if ParseRequest(m.data).Some? {
      var p := ParseRequest(m.data).value;
      var up, down := AnswerUpload(sv.session, sv.disk, p, env), AnswerDownload(sv.session, sv.disk, p, env);
      PostSendsNoData(sv.(session := up.session, disk := up.disk), RawMessage(FILE_READY_SEND, Response(up.text)));
      PostSendsNoData(sv.(session := down.session, disk := down.disk),
                      RawMessage(FILE_READY_RECV, Response(down.text)));
    }
  }

  /** Only requests and the end of an upload are answered. */
  lemma OthersQueueNothing(sv: Server, m: Frames.Message, env: Env)
    requires sv.tx.Valid() && m.kind !in {FILE_UPLOAD_START, FILE_DOWNLOAD_START, FILE_DATA_END}
    ensures Handle(sv, m, env).0.log == sv.log
  {
  }

  lemma EndSendsNoData(sv: Server)
    requires sv.tx.Valid()
    ensures var log := HandleDataEnd(sv).0.log;
            sv.log <= log && Delivered(log[|sv.log|..]) == []
  {
    PostSendsNoData(sv.(session := sv.session.(file := Closed)), RawMessage(FILE_DATA_END_ACK, []));
  }

  lemma MessagesSendNoData(sv: Server, m: Frames.Message, env: Env)
    requires sv.tx.Valid()
    ensures var log := Handle(sv, m, env).0.log;
            sv.log <= log && Delivered(log[|sv.log|..]) == []
  {
    if m.kind == FILE_UPLOAD_START {
      StartsSendNoData(sv, m, env);
      RequestsAreDispatched(sv, m, env);
    } else if m.kind == FILE_DOWNLOAD_START {
      StartsSendNoData(sv, m, env);
      RequestsAreDispatched(sv, m, env);
    } else if m.kind == FILE_DATA_END {
      EndSendsNoData(sv);
    } else {
      OthersQueueNothing(sv, m, env);
      assert sv.log[|sv.log|..] == [];
    }
  }

  lemma OtherEventsSendNoData(sv: Server, e: Event)
    requires ValidServer(sv) && !e.Send?
    ensures var sv' := Apply(sv, e);
            sv.log <= sv'.log && Delivered(sv'.log[|sv.log|..]) == []
  {
    assert sv.log[|sv.log|..] == [];
    if e.Message? {
      MessagesSendNoData(sv, e.msg, e.env);
    } else if e.Output? && sv.session.pty && e.data != [] {
      var n := if |e.data| < MAX_MESSAGE_DATA then |e.data| else MAX_MESSAGE_DATA;
      PostSendsNoData(sv, RawMessage(PTY_DATA, e.data[..n]));
    }
  }

  /**
   Whatever happens in a session, file data is queued only by a send call, only from a file opened
   for reading that an earlier download request named, and it is what the file holds from the
   descriptor's position on.
   */
  lemma {:induction false} DataSentWasRequested(disk: Disk, tx: Tx, es: seq<Event>, e: Event)
    requires tx.Valid()
    ensures var sv := Serving(disk, tx, es);
            var sv' := Apply(sv, e);
            var f := sv.session.file;
            && sv.log <= sv'.log
            && var sent := Delivered(sv'.log[|sv.log|..]);
               sent != [] ==>
                 && e.Send? && f.Open? && f.mode == ReadOnly && WasRequested(es, f)
                 && sent <= Contents(sv.disk, f.path)[f.pos..]
  {
    var sv := Serving(disk, tx, es);
    OpenFileWasRequested(disk, tx, es);
    SessionInvariantAlwaysHolds(disk, tx, es);
    if e.Send? {
      SendExtendsLog(sv, e.readAt);
    } else {
      OtherEventsSendNoData(sv, e);
    }
  }

  // ---------- reading back an upload ----------

  /** A short file behind a few small messages is read and queued in one chunk. */
  lemma ShortFileIsSent(s: Sender, src: seq<Byte>, readAt: nat -> int)
    requires s.open && !s.begun && s.pos == 0 && s.tx.start == 0 && |s.tx.pending| <= 624
    requires 1 <= |src| <= MAX_MESSAGE_DATA && readAt(0) >= |src|
    ensures ValidSender(s, src) && Call(s, src, false, readAt).pos == |src|
  {
    var w := Write(s.tx, Encode(BEGIN_MARK));
    assert w.ok && |w.tx.pending| <= 636;
    assert src[0..] == src && src[..|src|] == src;
    var it := Iterate(src, 0, w.tx, readAt(0));
    assert it == Continue(Chunk(src), Write(w.tx, Encode(Chunk(src))).tx);
    SendLoopUnrolls(src, 0, w.tx, readAt, it, |src|);
  }

  /** Any answer takes at most 312 bytes of the ring, and moves only the end cursor. */
  lemma AnswerTakesLittle(sv: Server, kind: UInt32, text: seq<Byte>)
    requires sv.tx.Valid() && sv.tx.start == 0 && |sv.tx.pending| <= 312
    ensures var tx := Post(sv, RawMessage(kind, Response(text))).0.tx;
            tx.start == 0 && |tx.pending| <= |sv.tx.pending| + 312
  {
  }

  function RequestOf(kind: UInt32, path: Path): Message {
    RawMessage(kind, Printed(Paths(path, path)))
  }

  lemma RequestOfIsParsed(kind: UInt32, path: Path)
    requires IsToken(path) && IsCString(path) && Fits(Paths(path, path))
    ensures ParseRequest(RequestOf(kind, path).data) == Some(Paths(path, path))
  {
    var p := Paths(path, path);
    RequestRoundTripIff(p, []);
    assert Payload(p, []) == Printed(p);
  }

  lemma CreatedByUpload(sv: Server, path: Path, env: Env)
    requires sv.tx == Tx(0, []) && path !in sv.disk && env.parentExists && env.openOk
    requires IsToken(path) && IsCString(path) && Fits(Paths(path, path))
    ensures var sv' := Handle(sv, RequestOf(FILE_UPLOAD_START, path), env).0;
            && sv'.session == sv.session.(file := Open(path, CreatedForWriting, 0), kind := FileUpload)
            && sv'.disk == sv.disk[path := Regular([])]
            && sv'.tx.start == 0 && |sv'.tx.pending| <= 312
  {
    var p, m := Paths(path, path), RequestOf(FILE_UPLOAD_START, path);
    var a := AnswerUpload(sv.session, sv.disk, p, env);
    RequestOfIsParsed(FILE_UPLOAD_START, path);
    UploadIsGranted(sv, m, p, env);
    UploadIsPosted(sv, m, p, env, a);
    AnswerTakesLittle(sv.(session := a.session, disk := a.disk), FILE_READY_SEND, a.text);
  }

  lemma FilledByData(sv: Server, path: Path, data: seq<Byte>, env: Env)
    requires sv.tx.Valid() && |data| <= MAX_MESSAGE_DATA && env.written >= |data|
    requires sv.session.kind == FileUpload && sv.session.file == Open(path, CreatedForWriting, 0)
    requires path in sv.disk && sv.disk[path] == Regular([])
    ensures var sv' := Handle(sv, Chunk(data), env).0;
            && sv'.disk == sv.disk[path := Regular(data)]
            && sv'.session.started == sv.session.started && sv'.session.pty == sv.session.pty && sv'.tx == sv.tx
  {
    assert Handle(sv, Chunk(data), env) == HandleData(sv, Chunk(data), env);
    assert [] + data[..|data|] == data;
  }

  lemma OpenedByDownload(sv: Server, path: Path, env: Env)
    requires sv.tx.start == 0 && |sv.tx.pending| <= 312 && path in sv.disk && sv.disk[path].Regular? && env.openOk
    requires IsToken(path) && IsCString(path) && Fits(Paths(path, path))
    ensures var sv' := Handle(sv, RequestOf(FILE_DOWNLOAD_START, path), env).0;
            && sv'.session == sv.session.(file := Open(path, ReadOnly, 0), kind := FileDownload)
            && sv'.disk == sv.disk && sv'.tx.start == 0 && |sv'.tx.pending| <= 624
  {
    var p, m := Paths(path, path), RequestOf(FILE_DOWNLOAD_START, path);
    var a := AnswerDownload(sv.session, sv.disk, p, env);
    RequestOfIsParsed(FILE_DOWNLOAD_START, path);
    DownloadIsPosted(sv, m, p, env, a);
    AnswerTakesLittle(sv.(session := a.session, disk := a.disk), FILE_READY_RECV, a.text);
    RequestsAreDispatched(sv, m, env);
  }

  lemma NextMessage(disk: Disk, tx: Tx, es: seq<Event>, m: Frames.Message, env: Env)
    requires tx.Valid()
    ensures Serving(disk, tx, es + [Event.Message(m, env)]) == Handle(Serving(disk, tx, es), m, env).0
  {
    var e := Event.Message(m, env);
    assert (es + [e])[..|es|] == es;
    assert Apply(Serving(disk, tx, es), e) == Handle(Serving(disk, tx, es), m, env).0;
  }

  /** A new session is asked to receive a file, is given its contents, and is asked for it. */
  function ReadBack(path: Path, data: seq<Byte>, env: Env): seq<Event>
    requires |data| <= MAX_MESSAGE_DATA
  {
    Fill(path, data, env) + [Event.Message(RequestOf(FILE_DOWNLOAD_START, path), env)]
  }

  function Fill(path: Path, data: seq<Byte>, env: Env): seq<Event>
    requires |data| <= MAX_MESSAGE_DATA
  {
    Create(path, env) + [Event.Message(Chunk(data), env)]
  }

  function Create(path: Path, env: Env): seq<Event> {
    [] + [Event.Message(RequestOf(FILE_UPLOAD_START, path), env)]
  }

  predicate CanUpload(disk: Disk, path: Path, data: seq<Byte>, env: Env) {
    && IsToken(path) && IsCString(path) && Fits(Paths(path, path)) && path !in disk
    && 1 <= |data| <= MAX_MESSAGE_DATA && env.parentExists && env.openOk && env.written >= |data|
  }

  lemma FillIsStored(disk: Disk, path: Path, data: seq<Byte>, env: Env)
    requires CanUpload(disk, path, data, env)
    ensures var sv := Serving(disk, Tx(0, []), Fill(path, data, env));
            && sv.disk == disk[path := Regular(data)] && !sv.session.started && !sv.session.pty
            && sv.tx.start == 0 && |sv.tx.pending| <= 312
  {
    NextMessage(disk, Tx(0, []), [], RequestOf(FILE_UPLOAD_START, path), env);
    CreatedByUpload(Serving(disk, Tx(0, []), []), path, env);
    var created := Serving(disk, Tx(0, []), Create(path, env));
    NextMessage(disk, Tx(0, []), Create(path, env), Chunk(data), env);
    FilledByData(created, path, data, env);
  }

  lemma ReadBackIsOpen(disk: Disk, path: Path, data: seq<Byte>, env: Env)
    requires CanUpload(disk, path, data, env)
    ensures var sv := Serving(disk, Tx(0, []), ReadBack(path, data, env));
            && sv.session == Session(FileDownload, Open(path, ReadOnly, 0), false, false) && Source(sv) == data
            && sv.tx.start == 0 && |sv.tx.pending| <= 624
  {
    FillIsStored(disk, path, data, env);
    NextMessage(disk, Tx(0, []), Fill(path, data, env), RequestOf(FILE_DOWNLOAD_START, path), env);
    OpenedByDownload(Serving(disk, Tx(0, []), Fill(path, data, env)), path, env);
  }

  /** An upload target can be read out after all: by a download request that names it, in the same session. */
  lemma UploadCanBeReadBack(disk: Disk, path: Path, data: seq<Byte>, env: Env, readAt: nat -> int)
    requires CanUpload(disk, path, data, env) && readAt(0) >= |data|
    ensures var sv := Serving(disk, Tx(0, []), ReadBack(path, data, env));
            var sv' := Apply(sv, Event.Send(readAt));
            |sv.log| <= |sv'.log| && Delivered(sv'.log[|sv.log|..]) == data
  {
    var sv := Serving(disk, Tx(0, []), ReadBack(path, data, env));
    ReadBackIsOpen(disk, path, data, env);
    ShortFileIsSent(SenderOf(sv), data, readAt);
    CallExtendsLog(SenderOf(sv), data, readAt);
    assert data[0..|data|] == data;
  }
}
