/**
 The server's side of one session as a function of the messages it is given: the connection
 kind, the open file and the begin flag, the files on disk, and the queue of the connection.
 Outcomes of system calls are in `Env`, one value for each message handled.
 */
module ServerProtocol {
  import opened Frames
  import opened TxRing
  import opened Options
  import opened Requests
  import opened HandlerBuffers
  import opened FileSending

  const WINSIZE_BYTES := 8
  const LAST_MESSAGE: Message := RawMessage(CLIENT_END, [])

  type Path = seq<Byte>

  /** What a path names: a regular file with its contents, or something else such as a directory. */
  datatype Node = Regular(contents: seq<Byte>) | Special

  type Disk = map<Path, Node>

  datatype Mode = ReadOnly | CreatedForWriting

  datatype File = Closed | Open(path: Path, mode: Mode, pos: nat)

  datatype ConnectionType = Bash | Cmd | FileUpload | FileDownload

  datatype Session = Session(kind: ConnectionType, file: File, started: bool, pty: bool)

  /** `log` lists the messages the connection's queue accepted. */
  datatype Server = Server(session: Session, disk: Disk, tx: Tx, log: seq<Message>)

  /**
   `parentExists` and `parentName`: stat() and dirname() of the destination; `openOk` and `errorText`:
   open() and strerror(); `written`: write(); `deviceOk`: openpty(), fork() and ioctl().
   */
  datatype Env = Env(parentExists: bool, parentName: seq<Byte>, openOk: bool, errorText: seq<Byte>,
                     written: int, deviceOk: bool)

  function Contents(disk: Disk, path: Path): seq<Byte> {
    if path in disk && disk[path].Regular? then disk[path].contents else []
  }

  // ---------- the queue of the connection ----------

  function Post(sv: Server, m: Message): (r: (Server, bool))
    requires sv.tx.Valid()
    ensures r.0.tx.Valid() && r.0.session == sv.session && r.0.disk == sv.disk
  {
    var w := Write(sv.tx, Encode(m));
    if w.ok then (sv.(tx := w.tx, log := sv.log + [m]), true) else (sv, false)
  }

  // ---------- responses ----------

  function Ascii(s: string): seq<Byte> {
    seq(|s|, i requires 0 <= i < |s| => (s[i] as int) % 0x80)
  }

  /** The response buffer holds 299 characters; the terminator is sent too. */
  function Response(text: seq<Byte>): (data: seq<Byte>)
    ensures 1 <= |data| <= MAX_PATH_LENGTH
    ensures data[..|data| - 1] <= text && data[|data| - 1] == NUL
    ensures |data| == MAX_PATH_LENGTH || |data| == |text| + 1
  {
    (if |text| < MAX_PATH_LENGTH then text else text[..MAX_PATH_LENGTH - 1]) + [NUL]
  }

  function Accepting(p: Paths): seq<Byte> {
    Ascii("OK ") + p.source + [SPACE] + p.destination
  }

  /** `strncmp(response, "OK", 2) == 0`, as the client decides. */
  predicate SaysOk(data: seq<Byte>) {
    Ascii("OK") <= data
  }

  /** The comparison stops at the terminator, so it gives the same on a copy whatever lies behind. */
  lemma CopySaysOkIff(data: seq<Byte>, copy: seq<Byte>)
    requires data + [NUL] <= copy
    ensures SaysOk(copy) <==> SaysOk(data)
  {
    var ok := Ascii("OK");
    assert ok == [79, 75];
    assert copy[|data|] == (data + [NUL])[|data|] == NUL;
    if |data| >= 2 {
      assert copy[0] == data[0] && copy[1] == data[1];
    }
  }

  /** Truncation and the terminator do not hide how a text of at least two characters begins. */
  lemma TextSaysOk(text: seq<Byte>)
    requires |text| >= 2
    ensures SaysOk(Response(text)) <==> text[0] == 79 && text[1] == 75
  {
    assert |Ascii("OK")| == 2 && Ascii("OK")[0] == 79 && Ascii("OK")[1] == 75;
    assert Response(text)[0] == text[0] && Response(text)[1] == text[1];
  }

  /**
   The client copies an answer into a buffer as large as the one the server built it in and puts a
   second terminator behind it, so an answer that fills the server's buffer is one byte too long.
   */
  lemma AnswerFitsClientIff(kind: UInt32, text: seq<Byte>)
    requires kind == FILE_READY_SEND || kind == FILE_READY_RECV
    ensures StaysInClientBuffer(RawMessage(kind, Response(text))) <==> |text| < MAX_PATH_LENGTH - 1
  {
  }

  /** An accepted request of paths with 295 characters or more overruns the client's buffer, a shorter one does not. */
  lemma AcceptingFitsClientIff(kind: UInt32, p: Paths)
    requires kind == FILE_READY_SEND || kind == FILE_READY_RECV
    ensures StaysInClientBuffer(RawMessage(kind, Response(Accepting(p)))) <==> |p.source| + |p.destination| < 295
  {
    AnswerFitsClientIff(kind, Accepting(p));
    assert |Ascii("OK ")| == 3;
  }

  // ---------- message handlers ----------

  /** What a request does to the session and the disk, and the text that is sent back. */
  datatype Answer = Answer(session: Session, disk: Disk, text: seq<Byte>)

  function AnswerUpload(s: Session, disk: Disk, p: Paths, env: Env): Answer {
    if p.destination in disk then
      Answer(s, disk, Ascii("KO destination '") + p.destination + Ascii("' already exists"))
    else if !env.parentExists then
      Answer(s, disk, Ascii("KO destination directory '") + env.parentName + Ascii("' does not exist"))
    else if !env.openOk then
      Answer(s.(file := Closed), disk, Ascii("KO failed to create file: ") + env.errorText)
    else
      Answer(s.(file := Open(p.destination, CreatedForWriting, 0), kind := FileUpload),
             disk[p.destination := Regular([])], Accepting(p))
  }

  function AnswerDownload(s: Session, disk: Disk, p: Paths, env: Env): Answer {
    if p.source !in disk then
      Answer(s, disk, Ascii("KO source file '") + p.source + Ascii("' does not exist"))
    else if !disk[p.source].Regular? then
      Answer(s, disk, Ascii("KO '") + p.source + Ascii("' is not a regular file"))
    else if !env.openOk then
      Answer(s.(file := Closed), disk, Ascii("KO failed to open file: ") + env.errorText)
    else
      Answer(s.(file := Open(p.source, ReadOnly, 0), kind := FileDownload), disk, Accepting(p))
  }

  /**
   The upload response says OK exactly when the destination is new, its directory exists and it could be
   created, which opens it for writing.  A refusal leaves the disk alone and, unless it comes
   from a failing open(), whose result overwrites the descriptor, the session too.
   */
  lemma UploadAnswerSaysOkIff(s: Session, disk: Disk, p: Paths, env: Env)
    ensures var a := AnswerUpload(s, disk, p, env);
            && (SaysOk(Response(a.text)) <==> p.destination !in disk && env.parentExists && env.openOk)
            && (SaysOk(Response(a.text)) ==>
                  && a.session == s.(file := Open(p.destination, CreatedForWriting, 0), kind := FileUpload)
                  && a.disk == disk[p.destination := Regular([])])
            && (!SaysOk(Response(a.text)) ==>
                  && a.disk == disk
                  && a.session == if p.destination !in disk && env.parentExists then s.(file := Closed) else s)
  {
    TextSaysOk(AnswerUpload(s, disk, p, env).text);
  }

  /** The download response says OK exactly when the source is a regular file and could be opened; refusals likewise. */
  lemma DownloadAnswerSaysOkIff(s: Session, disk: Disk, p: Paths, env: Env)
    ensures var a := AnswerDownload(s, disk, p, env);
            && a.disk == disk
            && (SaysOk(Response(a.text)) <==> p.source in disk && disk[p.source].Regular? && env.openOk)
            && (SaysOk(Response(a.text)) ==> a.session == s.(file := Open(p.source, ReadOnly, 0), kind := FileDownload))
            && (!SaysOk(Response(a.text)) ==>
                  a.session == if p.source in disk && disk[p.source].Regular? then s.(file := Closed) else s)
  {
    TextSaysOk(AnswerDownload(s, disk, p, env).text);
  }

  const QUOTE: seq<Byte> := [39]

  /** The text holds the path between quotation marks. */
  ghost predicate Quotes(text: seq<Byte>, path: Path) {
    exists before: seq<Byte>, after: seq<Byte> :: text == before + QUOTE + path + QUOTE + after
  }

  lemma QuotedBetween(open: string, path: Path, close: string)
    requires open != [] && open[|open| - 1] == '\'' && close != [] && close[0] == '\''
    ensures Quotes(Ascii(open) + path + Ascii(close), path)
  {
    var o, c := Ascii(open), Ascii(close);
    assert o == o[..|o| - 1] + QUOTE && c == QUOTE + c[1..];
    assert o + path + c == o[..|o| - 1] + QUOTE + path + QUOTE + c[1..];
  }

  /** A granting answer echoes the request; a refusal quotes the path it is about, or ends with what open() reported. */
  lemma AnswerTexts(s: Session, disk: Disk, p: Paths, env: Env)
    ensures var text := AnswerUpload(s, disk, p, env).text;
            if p.destination in disk then Quotes(text, p.destination)
            else if !env.parentExists then Quotes(text, env.parentName)
            else if !env.openOk then env.errorText <= text[|text| - |env.errorText|..]
            else text == Ascii("OK ") + Text(p)
    ensures var text := AnswerDownload(s, disk, p, env).text;
            if p.source !in disk || !disk[p.source].Regular? then Quotes(text, p.source)
            else if !env.openOk then env.errorText <= text[|text| - |env.errorText|..]
            else text == Ascii("OK ") + Text(p)
  {
    QuotedBetween("KO destination '", p.destination, "' already exists");
    QuotedBetween("KO destination directory '", env.parentName, "' does not exist");
    QuotedBetween("KO source file '", p.source, "' does not exist");
    QuotedBetween("KO '", p.source, "' is not a regular file");
  }

  function HandleUploadStart(sv: Server, m: Message, env: Env): (r: (Server, bool))
    requires sv.tx.Valid()
    ensures r.0.tx.Valid()
  {
    var request := ParseRequest(m.data);
    if request.None? then (sv, false)
    else
      var a := AnswerUpload(sv.session, sv.disk, request.value, env);
      Post(sv.(session := a.session, disk := a.disk), RawMessage(FILE_READY_SEND, Response(a.text)))
  }

  function HandleDownloadStart(sv: Server, m: Message, env: Env): (r: (Server, bool))
    requires sv.tx.Valid()
    ensures r.0.tx.Valid()
  {
    var request := ParseRequest(m.data);
    if request.None? then (sv, false)
    else
      var a := AnswerDownload(sv.session, sv.disk, request.value, env);
      Post(sv.(session := a.session, disk := a.disk), RawMessage(FILE_READY_RECV, Response(a.text)))
  }

  /** `write()` on the session's file: nothing and an error on a descriptor opened for reading. */
  function WriteFile(sv: Server, data: seq<Byte>, result: int): (r: (Server, int))
    requires sv.tx.Valid() && sv.session.file.Open?
    ensures r.0.tx.Valid()
  {
    var f := sv.session.file;
    if f.mode == ReadOnly || result < 0 then (sv, -1)
    else
      var n := if result < |data| then result else |data|;
      (sv.(disk := sv.disk[f.path := Regular(Contents(sv.disk, f.path) + data[..n])],
           session := sv.session.(file := f.(pos := f.pos + n))), n)
  }

  function HandleData(sv: Server, m: Message, env: Env): (r: (Server, bool))
    requires sv.tx.Valid()
    ensures r.0.tx.Valid()
  {
    if sv.session.file.Closed? || sv.session.kind != FileUpload then (sv, false)
    else
      var (sv', n) := WriteFile(sv, m.data, env.written);
      (sv', n == |m.data|)
  }

  function HandleDataEnd(sv: Server): (r: (Server, bool))
    requires sv.tx.Valid()
    ensures r.0.tx.Valid()
  {
    Post(sv.(session := sv.session.(file := Closed)), RawMessage(FILE_DATA_END_ACK, []))
  }

  function OpenPty(sv: Server, kind: ConnectionType, env: Env): (Server, bool) {
    var s := sv.session.(kind := kind);
    if env.deviceOk then (sv.(session := s.(pty := true)), true) else (sv.(session := s), false)
  }

  /** The dispatcher: the new state and whether the handler succeeded. */
  function Handle(sv: Server, m: Message, env: Env): (r: (Server, bool))
    requires sv.tx.Valid()
    ensures r.0.tx.Valid()
  {
    if m.kind == OPEN_BASH then OpenPty(sv, Bash, env)
    else if m.kind == OPEN_CMD then OpenPty(sv, Cmd, env)
    else if m.kind == WINDOW_SIZE then (sv, sv.session.pty && |m.data| == WINSIZE_BYTES && env.deviceOk)
    else if m.kind == CLIENT_DATA then (sv, sv.session.pty && env.written >= 0)
    else if m.kind == FILE_UPLOAD_START then HandleUploadStart(sv, m, env)
    else if m.kind == FILE_DOWNLOAD_START then HandleDownloadStart(sv, m, env)
    else if m.kind == FILE_DATA then HandleData(sv, m, env)
    else if m.kind == FILE_DATA_END then HandleDataEnd(sv)
    else (sv, false)
  }

  /** Requests go to the handler of their kind. */
  lemma RequestsAreDispatched(sv: Server, m: Message, env: Env)
    requires sv.tx.Valid()
    ensures m.kind == FILE_UPLOAD_START ==> Handle(sv, m, env) == HandleUploadStart(sv, m, env)
    ensures m.kind == FILE_DOWNLOAD_START ==> Handle(sv, m, env) == HandleDownloadStart(sv, m, env)
  {
  }

  // ---------- sending ----------

  /** The part of the server's state the send loop works on. */
  function SenderOf(sv: Server): Sender {
    var f := sv.session.file;
    Sender(f.Open?, sv.session.started, if f.Open? then f.pos else 0, sv.tx, sv.log)
  }

  function WithSender(sv: Server, s: Sender): (sv': Server) {
    var f := sv.session.file;
    sv.(session := sv.session.(started := s.begun, file := if s.open && f.Open? then f.(pos := s.pos) else Closed),
        tx := s.tx, log := s.log)
  }

  /** What `read()` finds behind the open descriptor; one opened for writing only cannot be read. */
  function Source(sv: Server): seq<Byte> {
    if sv.session.file.Open? then Contents(sv.disk, sv.session.file.path) else []
  }

  function ReadResults(sv: Server, readAt: nat -> int): nat -> int {
    if sv.session.file.Open? && sv.session.file.mode == ReadOnly then readAt else (_ => -1)
  }

  predicate ValidServer(sv: Server) {
    && sv.tx.Valid()
    && (sv.session.file.Open? ==> sv.session.file.pos <= |Source(sv)|)
  }

  function SendData(sv: Server, readAt: nat -> int): (sv': Server)
    requires ValidServer(sv)
    ensures ValidServer(sv')
  {
    if sv.session.file.Closed? || sv.session.kind != FileDownload then sv
    else WithSender(sv, Call(SenderOf(sv), Source(sv), false, ReadResults(sv, readAt)))
  }

  // ---------- terminal output ----------

  /** `data` is what `read()` on the pseudo-terminal brought; a queue that is full drops it. */
  function HandlePtyData(sv: Server, data: seq<Byte>): (sv': Server)
    requires sv.tx.Valid()
    ensures sv'.tx.Valid() && sv'.session == sv.session && sv'.disk == sv.disk
  {
    var n := if |data| < MAX_MESSAGE_DATA then |data| else MAX_MESSAGE_DATA;
    if !sv.session.pty || n == 0 then sv else Post(sv, RawMessage(PTY_DATA, data[..n])).0
  }

  // ---------- what a message may do ----------

  /**
   What a message may do to session and disk: nothing but move the kind to a terminal one; close the
   file; open one for reading; create and open a new one; or append to the open upload.
   */
  ghost predicate Allowed(sv: Server, sv': Server) {
    var f, f' := sv.session.file, sv'.session.file;
    || (sv'.disk == sv.disk && f' == f
        && (sv'.session.kind == sv.session.kind || sv'.session.kind in {Bash, Cmd}))
    || (sv'.disk == sv.disk && f' == Closed)
    || (exists p :: sv'.disk == sv.disk && f' == Open(p, ReadOnly, 0) && sv'.session.kind == FileDownload)
    || (exists p :: p !in sv.disk && sv'.disk == sv.disk[p := Regular([])]
                    && f' == Open(p, CreatedForWriting, 0) && sv'.session.kind == FileUpload)
    || (f.Open? && f.mode == CreatedForWriting && sv.session.kind == sv'.session.kind == FileUpload
        && exists data: seq<Byte> ::
             && sv'.disk == sv.disk[f.path := Regular(Contents(sv.disk, f.path) + data)]
             && f' == f.(pos := f.pos + |data|))
  }

  lemma UploadStartCases(sv: Server, m: Frames.Message, env: Env)
    requires sv.tx.Valid()
    ensures Allowed(sv, HandleUploadStart(sv, m, env).0)
  {
    if ParseRequest(m.data).Some? {
      var a := AnswerUpload(sv.session, sv.disk, ParseRequest(m.data).value, env);
      var sv' := HandleUploadStart(sv, m, env).0;
      assert sv'.session == a.session && sv'.disk == a.disk;
    }
  }

  lemma DownloadStartCases(sv: Server, m: Frames.Message, env: Env)
    requires sv.tx.Valid()
    ensures Allowed(sv, HandleDownloadStart(sv, m, env).0)
  {
    if ParseRequest(m.data).Some? {
      var a := AnswerDownload(sv.session, sv.disk, ParseRequest(m.data).value, env);
      var sv' := HandleDownloadStart(sv, m, env).0;
      assert sv'.session == a.session && sv'.disk == a.disk;
    }
  }

  lemma WriteFileCases(sv: Server, data: seq<Byte>, result: int)
    requires sv.tx.Valid() && sv.session.file.Open?
    ensures var f := sv.session.file;
            var sv' := WriteFile(sv, data, result).0;
            || sv' == sv
            || (f.mode == CreatedForWriting && sv.session.kind == sv'.session.kind
                && exists data: seq<Byte> ::
                     && sv'.disk == sv.disk[f.path := Regular(Contents(sv.disk, f.path) + data)]
                     && sv'.session.file == f.(pos := f.pos + |data|))
  {
    if sv.session.file.mode == CreatedForWriting && result >= 0 {
      var n := if result < |data| then result else |data|;
      var d := data[..n];
      assert |d| == n;
    }
  }

  lemma HandleCases(sv: Server, m: Frames.Message, env: Env)
    requires sv.tx.Valid()
    ensures Allowed(sv, Handle(sv, m, env).0)
  {
    if m.kind == FILE_DATA {
      if sv.session.file.Open? && sv.session.kind == FileUpload {
        WriteFileCases(sv, m.data, env.written);
      }
    } else if m.kind == FILE_UPLOAD_START {
      UploadStartCases(sv, m, env);
    } else if m.kind == FILE_DOWNLOAD_START {
      DownloadStartCases(sv, m, env);
    }
  }

  lemma HandleKeepsValid(sv: Server, m: Frames.Message, env: Env)
    requires ValidServer(sv)
    ensures ValidServer(Handle(sv, m, env).0)
  {
    HandleCases(sv, m, env);
  }

  // ---------- sessions under arbitrary messages ----------

  datatype Event =
    | Message(msg: Frames.Message, env: Env)
    | Output(data: seq<Byte>)
    | Send(readAt: nat -> int)
    | Flushed(result: int)

  /** One event of a session; a rejected message ends a real session, here it may also go on. */
  function Apply(sv: Server, e: Event): (sv': Server)
    requires ValidServer(sv)
    ensures ValidServer(sv')
  {
    match e
    case Message(m, env) =>
      HandleKeepsValid(sv, m, env);
      Handle(sv, m, env).0
    case Output(data) => HandlePtyData(sv, data)
    case Send(readAt) => SendData(sv, readAt)
    case Flushed(result) => sv.(tx := Flush(sv.tx, result))
  }

  function ApplyAll(sv: Server, es: seq<Event>): (sv': Server)
    requires ValidServer(sv)
    ensures ValidServer(sv')
    decreases |es|
  {
    if es == [] then sv
    else Apply(ApplyAll(sv, es[..|es| - 1]), es[|es| - 1])
  }

  function NewSession(): Session {
    Session(Bash, Closed, false, false)
  }

  /**
   The connection kind never lies about the open descriptor, and a descriptor open for writing
   names a file that did not exist when the session began.  `before` is the disk at that time.
   */
  predicate SessionInvariant(sv: Server, before: Disk) {
    && ValidServer(sv)
    && (sv.session.file.Open? ==>
          && (sv.session.kind == FileUpload ==> sv.session.file.mode == CreatedForWriting)
          && (sv.session.kind == FileDownload ==> sv.session.file.mode == ReadOnly)
          && (sv.session.file.mode == CreatedForWriting ==> sv.session.file.path !in before))
    && (forall p :: p in before ==> p in sv.disk && sv.disk[p] == before[p])
  }

  lemma ApplyKeepsInvariant(sv: Server, e: Event, before: Disk)
    requires SessionInvariant(sv, before)
    ensures SessionInvariant(Apply(sv, e), before)
  {
    if e.Message? {
      HandleKeepsValid(sv, e.msg, e.env);
      HandleCases(sv, e.msg, e.env);
    }
  }

  /**
   Whatever messages a client sends, in whatever order and with whatever failures in between, data
   is never written to a download source, a descriptor created for writing is never read from, and
   no file that existed before the session is changed.  A payload that is copied is handled here as if
   the copy had room; `HandlerBuffers.StaysInServerBuffer` says when it has.
   */
  lemma {:induction false} SessionInvariantAlwaysHolds(disk: Disk, tx: Tx, es: seq<Event>)
    requires tx.Valid()
    ensures SessionInvariant(ApplyAll(Server(NewSession(), disk, tx, []), es), disk)
    decreases |es|
  {
    if es == [] {
    } else {
      var n := |es| - 1;
      SessionInvariantAlwaysHolds(disk, tx, es[..n]);
      ApplyKeepsInvariant(ApplyAll(Server(NewSession(), disk, tx, []), es[..n]), es[n], disk);
    }
  }

  // ---------- uploads ----------

  predicate Uploading(sv: Server) {
    && ValidServer(sv)
    && sv.session.kind == FileUpload && sv.session.file.Open? && sv.session.file.mode == CreatedForWriting
  }

  /** Data is accepted exactly when an upload is open and `write()` takes the whole payload, which it appends. */
  lemma DataAcceptedIff(sv: Server, m: Message, env: Env)
    requires SessionInvariant(sv, map[]) && m.kind == FILE_DATA
    ensures var (sv', ok) := Handle(sv, m, env);
            && (ok <==> Uploading(sv) && env.written >= |m.data|)
            && (ok ==> Uploading(sv') && sv'.session.file.path == sv.session.file.path
                       && Source(sv') == Source(sv) + m.data && sv'.log == sv.log && sv'.tx == sv.tx)
  {
    HandleKeepsValid(sv, m, env);
    if Uploading(sv) && env.written >= |m.data| {
      assert m.data[..|m.data|] == m.data;
    }
  }

  function HandleAll(sv: Server, ms: seq<Message>, envs: seq<Env>): (r: (Server, bool))
    requires sv.tx.Valid() && |ms| == |envs|
    ensures r.0.tx.Valid()
    decreases |ms|
  {
    if ms == [] then (sv, true)
    else
      var (sv', ok) := Handle(sv, ms[0], envs[0]);
      if ok then HandleAll(sv', ms[1..], envs[1..]) else (sv', false)
  }

  /** Accepted data messages append their concatenation to the uploaded file, and change nothing else. */
  lemma {:induction false} UploadCollectsPayloads(sv: Server, ms: seq<Message>, envs: seq<Env>)
    requires SessionInvariant(sv, map[]) && Uploading(sv) && |ms| == |envs|
    requires forall i :: 0 <= i < |ms| ==> ms[i].kind == FILE_DATA
    requires HandleAll(sv, ms, envs).1
    ensures var sv' := HandleAll(sv, ms, envs).0;
            var path := sv.session.file.path;
            && Uploading(sv') && sv'.session.file.path == path
            && Source(sv') == Source(sv) + Delivered(ms)
            && sv'.disk - {path} == sv.disk - {path} && sv'.log == sv.log && sv'.tx == sv.tx
    decreases |ms|
  {
    if ms == [] {
      assert Source(sv) + [] == Source(sv);
    } else {
      var (sv', _) := Handle(sv, ms[0], envs[0]);
      DataAcceptedIff(sv, ms[0], envs[0]);
      ApplyKeepsInvariant(sv, Event.Message(ms[0], envs[0]), map[]);
      UploadCollectsPayloads(sv', ms[1..], envs[1..]);
      Regroup(Source(sv), ms[0].data, Delivered(ms[1..]));
    }
  }

  lemma UploadIsPosted(sv: Server, start: Message, p: Paths, env: Env, a: Answer)
    requires sv.tx.Valid() && ParseRequest(start.data) == Some(p) && a == AnswerUpload(sv.session, sv.disk, p, env)
    ensures HandleUploadStart(sv, start, env)
         == Post(sv.(session := a.session, disk := a.disk), RawMessage(FILE_READY_SEND, Response(a.text)))
  {
  }

  lemma DownloadIsPosted(sv: Server, start: Message, p: Paths, env: Env, a: Answer)
    requires sv.tx.Valid() && ParseRequest(start.data) == Some(p) && a == AnswerDownload(sv.session, sv.disk, p, env)
    ensures HandleDownloadStart(sv, start, env)
         == Post(sv.(session := a.session, disk := a.disk), RawMessage(FILE_READY_RECV, Response(a.text)))
  {
  }

  lemma UploadIsGranted(sv: Server, start: Message, p: Paths, env: Env)
    requires sv.tx.Valid()
    requires start.kind == FILE_UPLOAD_START && ParseRequest(start.data) == Some(p)
    requires p.destination !in sv.disk && env.parentExists && env.openOk
    ensures var (sv', ok) := Handle(sv, start, env);
            && sv'.session == sv.session.(file := Open(p.destination, CreatedForWriting, 0), kind := FileUpload)
            && sv'.disk == sv.disk[p.destination := Regular([])]
            && (ok ==> |sv'.log| == |sv.log| + 1 && sv.log < sv'.log && SaysOk(sv'.log[|sv.log|].data))
  {
    var a := AnswerUpload(sv.session, sv.disk, p, env);
    UploadAnswerSaysOkIff(sv.session, sv.disk, p, env);
    RequestsAreDispatched(sv, start, env);
    UploadIsPosted(sv, start, p, env, a);
  }

  lemma CreatedOnly(disk: Disk, path: Path)
    requires path !in disk
    ensures disk[path := Regular([])] - {path} == disk
  {
  }

  /** A granted request creates the file, empty, and answers with OK. */
  lemma UploadStarts(sv: Server, start: Message, p: Paths, env: Env)
    requires SessionInvariant(sv, map[])
    requires start.kind == FILE_UPLOAD_START && ParseRequest(start.data) == Some(p)
    requires p.destination !in sv.disk && env.parentExists && env.openOk
    ensures var (sv', ok) := Handle(sv, start, env);
            && Uploading(sv') && SessionInvariant(sv', map[])
            && sv'.session.file.path == p.destination && Source(sv') == []
            && sv'.disk - {p.destination} == sv.disk
            && (ok ==> |sv'.log| == |sv.log| + 1 && sv.log < sv'.log && SaysOk(sv'.log[|sv.log|].data))
  {
    ApplyKeepsInvariant(sv, Event.Message(start, env), map[]);
    UploadIsGranted(sv, start, p, env);
    CreatedOnly(sv.disk, p.destination);
  }

  /**
   The end mark closes the file and leaves the disk alone.  It is acknowledged, and handled without
   failure, if and only if the ring has contiguous room for twelve bytes.
   */
  lemma UploadEnds(sv: Server, end: Message, env: Env)
    requires sv.tx.Valid() && end.kind == FILE_DATA_END
    ensures var (sv', ok) := Handle(sv, end, env);
            var ack: Message := RawMessage(FILE_DATA_END_ACK, []);
            && (ok <==> HEADER_SIZE <= sv.tx.Room())
            && sv'.session == sv.session.(file := Closed) && sv'.disk == sv.disk
            && (ok ==> sv'.log == sv.log + [ack])
            && (ok && |sv.tx.pending| + HEADER_SIZE < MAX_TX_BUFFER ==> sv'.tx.pending == sv.tx.pending + Encode(ack))
            && (!ok ==> sv'.log == sv.log && sv'.tx == sv.tx)
  {
    ContiguousSpaceDecides(sv.tx, Encode(RawMessage(FILE_DATA_END_ACK, [])));
  }

  /**
   A whole upload as the server sees it: a granted request, data messages and an end mark, all
   accepted.  The new file holds exactly the payloads, every other file is as before, the
   descriptor is closed, and the client has been sent the answer and, if and only if there is room for
   twelve bytes behind the answer, the acknowledgement.
   */
  lemma UploadStoresExactlyThePayloads(sv: Server, start: Message, p: Paths, env: Env, ms: seq<Message>, envs: seq<Env>)
    requires SessionInvariant(sv, map[]) && |ms| == |envs|
    requires start.kind == FILE_UPLOAD_START && ParseRequest(start.data) == Some(p)
    requires p.destination !in sv.disk && env.parentExists && env.openOk
    requires forall i :: 0 <= i < |ms| ==> ms[i].kind == FILE_DATA
    requires Handle(sv, start, env).1 && HandleAll(Handle(sv, start, env).0, ms, envs).1
    ensures var end: Message := RawMessage(FILE_DATA_END, []);
            var (sv', ok) := Handle(HandleAll(Handle(sv, start, env).0, ms, envs).0, end, env);
            && sv'.session.file == Closed
            && Contents(sv'.disk, p.destination) == Delivered(ms)
            && sv'.disk - {p.destination} == sv.disk
            && (ok <==> HEADER_SIZE <= Handle(sv, start, env).0.tx.Room())
            && (ok ==> |sv'.log| == |sv.log| + 2 && sv.log < sv'.log && SaysOk(sv'.log[|sv.log|].data)
                       && sv'.log[|sv.log| + 1] == RawMessage(FILE_DATA_END_ACK, []))
  {
    UploadStarts(sv, start, p, env);
    var started := Handle(sv, start, env).0;
    UploadCollectsPayloads(started, ms, envs);
    UploadEnds(HandleAll(started, ms, envs).0, RawMessage(FILE_DATA_END, []), env);
    assert [] + Delivered(ms) == Delivered(ms);
  }
}
