/**
 A whole download: the real client, the real server, two rings, two byte channels and two
 reassemblers.  A run is any sequence of actions of either side, so it covers every
 interleaving of send calls, partial flushes and partial reads, and every failure of a
 system call on either side.
 */
module Download {
  import opened Frames
  import opened TxRing
  import opened Reassembly
  import opened ByteStreams
  import opened Requests
  import opened ServerProtocol
  import opened DownloadClient

  type LiveServer = sv: Server | ValidServer(sv) witness Server(NewSession(), map[], Tx(0, []), [])
  type LiveClient = c: Client | c.tx.Valid() witness Client(true, [], false, Tx(0, []), [], 0, false)

  /** `served` and `got` are the messages accepted by the server and by the client. */
  datatype System = System(server: LiveServer, alive: bool, serverBuffer: seq<Byte>, served: seq<Message>,
                           client: LiveClient, clientBuffer: seq<Byte>, got: seq<Message>,
                           up: seq<Byte>, down: seq<Byte>)

  /** System call results are any integers: negative for an error, else bounded where they are used. */
  datatype Action =
    | ClientFlush(result: int)
    | ClientRead(result: int)
    | ServerRead(result: int, env: Env, lastWrite: int)
    | ServerSend(readAt: nat -> int)
    | ServerFlush(result: int)

  function ClientHandles(c: LiveClient, m: Message, results: nat -> int): (LiveClient, bool) {
    (HandleDownload(c, m, results(c.writeCalls)), true)
  }

  function ServerHandles(sv: LiveServer, m: Message, env: Env): (LiveServer, bool) {
    HandleKeepsValid(sv, m, env);
    var r := Handle(sv, m, env);
    (r.0, r.1)
  }

  function OnClientMessage(results: nat -> int): (LiveClient, Message) -> (LiveClient, bool) {
    (c, m) => ClientHandles(c, m, results)
  }

  function OnServerMessage(env: Env): (LiveServer, Message) -> (LiveServer, bool) {
    (sv, m) => ServerHandles(sv, m, env)
  }

  /** The error callback of the server: a last message, one flush, and the session is gone. */
  function Destroy(s: System, lastWrite: int): System {
    var sv := Post(s.server, LAST_MESSAGE).0;
    var n := Taken(sv.tx, lastWrite);
    s.(alive := false, down := s.down + sv.tx.pending[..n],
       server := sv.(session := sv.session.(file := Closed), tx := Flush(sv.tx, lastWrite)))
  }

  function Step(s: System, a: Action, results: nat -> int): System {
    match a
    case ClientFlush(result) =>
      var n := Taken(s.client.tx, result);
      s.(client := s.client.(tx := Flush(s.client.tx, result)), up := s.up + s.client.tx.pending[..n])
    case ClientRead(result) =>
      // The client's event loop ends once it is complete.
      if s.client.complete then s
      else if result < 0 then s.(client := s.client.(complete := true))
      else
        var n := ReadSize(s.clientBuffer, s.down, result);
        if n == 0 then s
        else
          var o := Process(s.clientBuffer + s.down[..n], s.client, OnClientMessage(results));
          s.(clientBuffer := o.rest, got := s.got + o.accepted, down := s.down[n..],
             client := o.state.(complete := o.state.complete || o.verdict != Waiting))
    case ServerRead(result, env, lastWrite) =>
      if !s.alive then s
      else if result < 0 then Destroy(s, lastWrite)
      else
        var n := ReadSize(s.serverBuffer, s.up, result);
        if n == 0 then s
        else
          var o := Process(s.serverBuffer + s.up[..n], s.server, OnServerMessage(env));
          var s' := s.(serverBuffer := o.rest, served := s.served + o.accepted, up := s.up[n..], server := o.state);
          if o.verdict == Waiting then s' else Destroy(s', lastWrite)
    case ServerSend(readAt) =>
      if !s.alive || s.server.session.file.Closed? || s.server.tx.Saturated() then s
      else s.(server := SendData(s.server, readAt))
    case ServerFlush(result) =>
      if !s.alive then s
      else
        var n := Taken(s.server.tx, result);
        s.(server := s.server.(tx := Flush(s.server.tx, result)), down := s.down + s.server.tx.pending[..n])
  }

  function Run(s: System, actions: seq<Action>, results: nat -> int): System
    decreases |actions|
  {
    if actions == [] then s
    else Step(Run(s, actions[..|actions| - 1], results), actions[|actions| - 1], results)
  }

  /** The client has created its file and queued one request; the server has just accepted the connection. */
  function Initial(disk: Disk, request: Paths): System
    requires Fits(request)
  {
    var m := RequestMessage(request);
    System(Server(NewSession(), disk, Tx(0, []), []), true, [], [],
           Client(true, [], false, Tx(0, Encode(m)), [m], 0, false), [], [], [], [])
  }

  function RequestMessage(request: Paths): (m: Message)
    requires Fits(request)
    ensures Sendable(m)
  {
    RawMessage(FILE_DOWNLOAD_START, Printed(request))
  }

  /** The file the server finds under the path it reads out of the request. */
  function Requested(disk: Disk, request: Paths): seq<Byte>
    requires Fits(request)
  {
    var p := ParseRequest(Printed(request));
    if p.Some? then Contents(disk, p.value.source) else []
  }
}
