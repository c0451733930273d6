/**
 The server's file transfer handlers and dispatcher on the objects they update in place: the
 session record, the connection's message queue and the files on disk.  Each method is proved
 to do exactly what its function in ServerProtocol says.
 */
module FileTransferServer {
  import opened Frames
  import opened TxRing
  import opened Options
  import opened Requests
  import opened HandlerBuffers
  import opened FileSending
  import opened MessageQueues
  import opened ServerProtocol
  import ChunkSending

  class FileSystem {
    var nodes: Disk

    constructor (disk: Disk)
      ensures nodes == disk
    {
      nodes := disk;
    }
  }

  /**
   The session record, whose socket never changes.  `fileFd` is an open file or none, a
   pseudo-terminal a number or negative.
   */
  class ClientSession {
    const socketFd: int
    var pid: int
    var ptyMasterFd: int
    var connectionType: ConnectionType
    var fileFd: File
    var fileTransferStarted: bool
    var prev: ClientSession?
    var next: ClientSession?

    constructor (socketFd: int)
      ensures this.socketFd == socketFd && pid == -1 && View() == NewSession()
      ensures prev == null && next == null
    {
      this.socketFd := socketFd;
      ptyMasterFd, fileFd, pid := -1, Closed, -1;
      connectionType, fileTransferStarted := Bash, false;
      prev, next := null, null;
    }

    function View(): Session
      reads this
    {
      Session(connectionType, fileFd, fileTransferStarted, ptyMasterFd >= 0)
    }
  }

  /** The server state behind the objects. */
  ghost function ServerOf(session: ClientSession, queue: MessageQueue, fs: FileSystem): (sv: Server)
    reads session, queue, queue.txBuffer, fs
    requires queue.Valid()
    ensures sv.tx.Valid()
  {
    Server(session.View(), fs.nodes, queue.Ring(), queue.log)
  }

  /** The objects are in the state `sv`. */
  ghost predicate InState(session: ClientSession, queue: MessageQueue, fs: FileSystem, sv: Server)
    reads session, queue, queue.txBuffer, fs
  {
    queue.Valid() && ServerOf(session, queue, fs) == sv
  }

  /**
   Copies a request, without looking at its length, and parses the copy.  `overrun` reports a
   payload that does not fit the buffer: the model stops where the copy would leave it.
   */
  method ReadRequest(msg: Message) returns (request: Option<Paths>, overrun: bool)
    ensures overrun <==> |msg.data| >= REQUEST_BUFFER
    ensures !overrun ==> request == ParseRequest(msg.data)
  {
    if |msg.data| >= REQUEST_BUFFER {
      return None, true;
    }
    var buffer := CopyTerminated(msg.data, REQUEST_BUFFER);
    return ParseRequest(buffer[..]), false;
  }

  /** Validates an upload request and creates the destination; `response` is the text of the answer. */
  method OpenDestination(session: ClientSession, fs: FileSystem, request: Paths, env: Env)
    returns (response: seq<Byte>)
    modifies session`fileFd, session`connectionType, fs
    ensures AnswerUpload(old(session.View()), old(fs.nodes), request, env) == Answer(session.View(), fs.nodes, response)
  {
    var destination := request.destination;
    if destination in fs.nodes {
      response := Ascii("KO destination '") + destination + Ascii("' already exists");
    } else if !env.parentExists {
      response := Ascii("KO destination directory '") + env.parentName + Ascii("' does not exist");
    } else {
      response := Accepting(request);
      if !env.openOk {
        session.fileFd := Closed;
        response := Ascii("KO failed to create file: ") + env.errorText;
      } else {
        fs.nodes := fs.nodes[destination := Regular([])];
        session.fileFd := Open(destination, CreatedForWriting, 0);
        session.connectionType := FileUpload;
      }
    }
  }

  method HandleUploadStart(session: ClientSession, queue: MessageQueue, fs: FileSystem, msg: Message, env: Env)
    returns (ok: bool, overrun: bool)
    requires queue.Valid()
    modifies session`fileFd, session`connectionType, fs, queue`txEnd, queue`log, queue.txBuffer
    ensures overrun <==> |msg.data| >= REQUEST_BUFFER
    ensures if overrun then InState(session, queue, fs, old(ServerOf(session, queue, fs)))
            else
              var r := ServerProtocol.HandleUploadStart(old(ServerOf(session, queue, fs)), msg, env);
              InState(session, queue, fs, r.0) && ok == r.1
  {
    var request;
    request, overrun := ReadRequest(msg);
    if overrun || request.None? {
      return false, overrun;
    }
    var response := OpenDestination(session, fs, request.value, env);
    ok := queue.Write(RawMessage(FILE_READY_SEND, Response(response)));
  }

  /** Validates a download request and opens the source; `response` is the text of the answer. */
  method OpenSource(session: ClientSession, fs: FileSystem, request: Paths, env: Env) returns (response: seq<Byte>)
    modifies session`fileFd, session`connectionType
    ensures AnswerDownload(old(session.View()), fs.nodes, request, env) == Answer(session.View(), fs.nodes, response)
  {
    var source := request.source;
    if source !in fs.nodes {
      response := Ascii("KO source file '") + source + Ascii("' does not exist");
    } else if !fs.nodes[source].Regular? {
      response := Ascii("KO '") + source + Ascii("' is not a regular file");
    } else {
      response := Accepting(request);
      if !env.openOk {
        session.fileFd := Closed;
        response := Ascii("KO failed to open file: ") + env.errorText;
      } else {
        session.fileFd := Open(source, ReadOnly, 0);
        session.connectionType := FileDownload;
      }
    }
  }

  method HandleDownloadStart(session: ClientSession, queue: MessageQueue, fs: FileSystem, msg: Message, env: Env)
    returns (ok: bool, overrun: bool)
    requires queue.Valid()
    modifies session`fileFd, session`connectionType, queue`txEnd, queue`log, queue.txBuffer
    ensures overrun <==> |msg.data| >= REQUEST_BUFFER
    ensures if overrun then InState(session, queue, fs, old(ServerOf(session, queue, fs)))
            else
              var r := ServerProtocol.HandleDownloadStart(old(ServerOf(session, queue, fs)), msg, env);
              InState(session, queue, fs, r.0) && ok == r.1
  {
    var request;
    request, overrun := ReadRequest(msg);
    if overrun || request.None? {
      return false, overrun;
    }
    var response := OpenSource(session, fs, request.value, env);
    ok := queue.Write(RawMessage(FILE_READY_RECV, Response(response)));
  }

  method HandleData(session: ClientSession, queue: MessageQueue, fs: FileSystem, msg: Message, env: Env)
    returns (ok: bool)
    requires queue.Valid()
    modifies session`fileFd, fs
    ensures var r := ServerProtocol.HandleData(old(ServerOf(session, queue, fs)), msg, env);
            InState(session, queue, fs, r.0) && ok == r.1
  {
    if session.fileFd.Closed? {
      return false;
    }
    if session.connectionType != FileUpload {
      return false;
    }
    var file := session.fileFd;
    var bytesWritten := -1;
    if file.mode != ReadOnly && env.written >= 0 {
      bytesWritten := if env.written < |msg.data| then env.written else |msg.data|;
      fs.nodes := fs.nodes[file.path := Regular(Contents(fs.nodes, file.path) + msg.data[..bytesWritten])];
      session.fileFd := file.(pos := file.pos + bytesWritten);
    }
    if bytesWritten < 0 {
      return false;
    }
    ok := bytesWritten == |msg.data|;
  }

  method HandleDataEnd(session: ClientSession, queue: MessageQueue, fs: FileSystem) returns (ok: bool)
    requires queue.Valid()
    modifies session`fileFd, queue`txEnd, queue`log, queue.txBuffer
    ensures var r := ServerProtocol.HandleDataEnd(old(ServerOf(session, queue, fs)));
            InState(session, queue, fs, r.0) && ok == r.1
  {
    session.fileFd := Closed;
    ok := queue.Write(RawMessage(FILE_DATA_END_ACK, []));
  }

  /** openpty() and fork() succeed together or not at all; the new descriptors come from the system. */
  method CreatePtySession(session: ClientSession, deviceOk: bool, childPid: int, ptyFd: nat) returns (ok: bool)
    modifies session`pid, session`ptyMasterFd
    ensures ok == deviceOk
    ensures if ok then session.pid == childPid && session.ptyMasterFd == ptyFd
            else session.pid == old(session.pid) && session.ptyMasterFd == old(session.ptyMasterFd)
  {
    if deviceOk {
      session.pid := childPid;
      session.ptyMasterFd := ptyFd;
    }
    ok := deviceOk;
  }

  /** Copies the command for the child process; what the child does with it is not modelled. */
  method HandleOpenCmd(session: ClientSession, msg: Message, deviceOk: bool, childPid: int, ptyFd: nat)
    returns (ok: bool, overrun: bool)
    modifies session`pid, session`ptyMasterFd, session`connectionType
    ensures overrun <==> |msg.data| >= REQUEST_BUFFER
    ensures session.connectionType == if overrun then old(session.connectionType) else Cmd
    ensures !overrun ==> ok == deviceOk
    ensures if ok && !overrun then session.pid == childPid && session.ptyMasterFd == ptyFd
            else session.pid == old(session.pid) && session.ptyMasterFd == old(session.ptyMasterFd)
  {
    if |msg.data| >= REQUEST_BUFFER {
      return false, true;
    }
    var command := CopyTerminated(msg.data, REQUEST_BUFFER);
    session.connectionType := Cmd;
    ok := CreatePtySession(session, deviceOk, childPid, ptyFd);
    overrun := false;
  }

  method HandleMessage(session: ClientSession, queue: MessageQueue, fs: FileSystem, msg: Message, env: Env,
                       childPid: int, ptyFd: nat)
    returns (ok: bool, overrun: bool)
    requires queue.Valid()
    modifies session`pid, session`ptyMasterFd, session`fileFd, session`connectionType
    modifies fs, queue`txEnd, queue`log, queue.txBuffer
    ensures overrun <==> !StaysInServerBuffer(msg)
    ensures if overrun then InState(session, queue, fs, old(ServerOf(session, queue, fs)))
            else
              var r := Handle(old(ServerOf(session, queue, fs)), msg, env);
              InState(session, queue, fs, r.0) && ok == r.1
    ensures if !overrun && ok && (msg.kind == OPEN_BASH || msg.kind == OPEN_CMD) then
              session.pid == childPid && session.ptyMasterFd == ptyFd
            else
              session.pid == old(session.pid) && session.ptyMasterFd == old(session.ptyMasterFd)
  {
    overrun := false;
    if msg.kind == OPEN_BASH {
      session.connectionType := Bash;
      ok := CreatePtySession(session, env.deviceOk, childPid, ptyFd);
    } else if msg.kind == OPEN_CMD {
      ok, overrun := HandleOpenCmd(session, msg, env.deviceOk, childPid, ptyFd);
    } else if msg.kind == WINDOW_SIZE {
      ok := session.ptyMasterFd >= 0 && |msg.data| == WINSIZE_BYTES && env.deviceOk;
    } else if msg.kind == CLIENT_DATA {
      ok := session.ptyMasterFd >= 0 && env.written >= 0;
    } else if msg.kind == FILE_UPLOAD_START {
      ok, overrun := HandleUploadStart(session, queue, fs, msg, env);
    } else if msg.kind == FILE_DOWNLOAD_START {
      ok, overrun := HandleDownloadStart(session, queue, fs, msg, env);
    } else if msg.kind == FILE_DATA {
      ok := HandleData(session, queue, fs, msg, env);
    } else if msg.kind == FILE_DATA_END {
      ok := HandleDataEnd(session, queue, fs);
    } else {
      ok := false;
    }
  }

  /** Queues the begin mark on the first call only. */
  method SendBegin(session: ClientSession, queue: MessageQueue) returns (ok: bool)
    requires queue.Valid()
    modifies session`fileTransferStarted, queue`txEnd, queue`log, queue.txBuffer
    ensures queue.Valid()
    ensures if old(session.fileTransferStarted) then
              ok && queue.log == old(queue.log) && queue.Ring() == old(queue.Ring()) && session.fileTransferStarted
            else
              var w := TxRing.Write(old(queue.Ring()), Encode(BEGIN_MARK));
              && ok == w.ok && queue.Ring() == w.tx && session.fileTransferStarted == ok
              && queue.log == if ok then old(queue.log) + [BEGIN_MARK] else old(queue.log)
  {
    ok := true;
    if !session.fileTransferStarted {
      ok := queue.Write(BEGIN_MARK);
      if ok {
        session.fileTransferStarted := true;
      }
    }
  }

  method SendOpenFile(session: ClientSession, queue: MessageQueue, fs: FileSystem, readAt: nat -> int)
    requires queue.Valid() && ValidServer(ServerOf(session, queue, fs)) && session.fileFd.Open?
    modifies session`fileFd, session`fileTransferStarted, queue`txEnd, queue`log, queue.txBuffer
    ensures var sv := old(ServerOf(session, queue, fs));
            InState(session, queue, fs, WithSender(sv, Call(SenderOf(sv), Source(sv), false, ReadResults(sv, readAt))))
  {
    ghost var sv := ServerOf(session, queue, fs);
    var begun := SendBegin(session, queue);
    if !begun {
      return;
    }
    var file := session.fileFd;
    var source := Contents(fs.nodes, file.path);
    ghost var sender := Sender(true, true, file.pos, queue.Ring(), queue.log);
    var results := if file.mode == ReadOnly then readAt else (_ => -1);
    var exit, pos, queued := ChunkSending.SendChunks(queue, source, file.pos, results);
    CallIsChunks(SenderOf(sv), sender, source, results);
    assert FileSending.SendChunks(sender, source, results)
        == Sender(exit == Paused, true, pos, queue.Ring(), queue.log);
    session.fileFd := if exit == Paused then file.(pos := pos) else Closed;
  }

  /** The resumable sender: the position and the begin flag live in the session between calls. */
  method SendData(session: ClientSession, queue: MessageQueue, fs: FileSystem, readAt: nat -> int)
    requires queue.Valid() && ValidServer(ServerOf(session, queue, fs))
    modifies session`fileFd, session`fileTransferStarted, queue`txEnd, queue`log, queue.txBuffer
    ensures InState(session, queue, fs, ServerProtocol.SendData(old(ServerOf(session, queue, fs)), readAt))
  {
    if session.fileFd.Closed? {
      return;
    }
    if session.connectionType != FileDownload {
      return;
    }
    SendOpenFile(session, queue, fs, readAt);
  }

  /** Output of the terminal: `data` is what `read()` on the pseudo-terminal brought. */
  method ForwardPtyData(session: ClientSession, queue: MessageQueue, fs: FileSystem, data: seq<Byte>)
    requires queue.Valid()
    modifies queue`txEnd, queue`log, queue.txBuffer
    ensures InState(session, queue, fs, HandlePtyData(old(ServerOf(session, queue, fs)), data))
  {
    var bytesRead := if |data| < MAX_MESSAGE_DATA then |data| else MAX_MESSAGE_DATA;
    if session.ptyMasterFd >= 0 && bytesRead > 0 {
      var _ := queue.Write(RawMessage(PTY_DATA, data[..bytesRead]));
    }
  }

  /** One flush of a ring with the last message appended: what of it reaches the socket, in front of the rest. */
  function LastFlush(t: Tx, lastWrite: int): (last: seq<Byte>)
    requires t.Valid()
    ensures var w := TxRing.Write(t, Encode(LAST_MESSAGE));
            last + Flush(w.tx, lastWrite).pending == w.tx.pending
  {
    var w := TxRing.Write(t, Encode(LAST_MESSAGE));
    w.tx.pending[..Taken(w.tx, lastWrite)]
  }

  /** The end of a session: a last message, one flush, and the file is closed. */
  method EndSession(session: ClientSession, queue: MessageQueue, lastWrite: int) returns (written: seq<Byte>)
    requires queue.Valid()
    modifies session`fileFd, queue`txStart, queue`txEnd, queue`log, queue.txBuffer
    ensures queue.Valid() && session.fileFd == Closed
    ensures written == LastFlush(old(queue.Ring()), lastWrite)
    ensures written + queue.Pending() == TxRing.Write(old(queue.Ring()), Encode(LAST_MESSAGE)).tx.pending
    ensures var w := TxRing.Write(old(queue.Ring()), Encode(LAST_MESSAGE));
            && queue.Ring() == Flush(w.tx, lastWrite)
            && queue.log == (if w.ok then old(queue.log) + [LAST_MESSAGE] else old(queue.log))
  {
    var _ := queue.Write(LAST_MESSAGE);
    ghost var pending := queue.Pending();
    written := queue.FlushWrites(lastWrite);
    assert written == pending[..|written|];
    if session.fileFd.Open? {
      session.fileFd := Closed;
    }
  }
}
