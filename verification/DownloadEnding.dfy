/**
 How a completed download ends.  The client acknowledges the end mark, the server's dispatcher
 knows no such message, and the rejection runs into the error callback: the session is destroyed.
 */
module DownloadEnding {
  import opened Frames
  import opened TxRing
  import opened Reassembly
  import opened ByteStreams
  import opened Requests
  import opened FileSending
  import opened ServerProtocol
  import opened DownloadClient
  import opened Download
  import opened DownloadSafety

  /** The client's ring never wraps, and the acknowledgement is queued with the end mark. */
  ghost predicate Acknowledges(c: LiveClient, got: seq<Message>, m: Message) {
    && c.log == (if EndMarks(got) > 0 then [m, ACK] else [m])
    && c.tx.start + |c.tx.pending| == |EncodeAll(c.log)|
  }

  lemma {:induction false} MessageKeepsAcknowledging(c: LiveClient, got: seq<Message>, m: Message, msg: Message, result: int)
    requires Acknowledges(c, got, m) && Sendable(m) && EndMarks(got + [msg]) <= 1
    ensures Acknowledges(HandleDownload(c, msg, result), got + [msg], m)
  {
    DeliveredAppend(got, [msg]);
    DeliveredOne(msg);
    ShortLog(m);
    assert [m] + [ACK] == [m, ACK];
  }

  lemma {:induction false} ReadKeepsAcknowledging(b: seq<Byte>, tail: seq<Byte>, log: seq<Message>, c: LiveClient,
                                                  got: seq<Message>, m: Message, results: nat -> int)
    requires EncodeAll(got) + b + tail == EncodeAll(log) && EndMarks(log) <= 1
    requires Acknowledges(c, got, m) && Sendable(m)
    ensures var o := Process(b, c, OnClientMessage(results));
            Acknowledges(o.state, got + o.accepted, m)
    decreases |b|
  {
    if !FrontOf(b).Complete? {
      assert got + [] == got;
    } else {
      var msg := FrontOf(b).msg;
      var rest := b[FrameSize(msg)..];
      var c' := ClientHandles(c, msg, results).0;
      TakeOne(got, b, tail, log, msg);
      MessageKeepsAcknowledging(c, got, m, msg, results(c.writeCalls));
      ReadKeepsAcknowledging(rest, tail, log, c', got + [msg], m, results);
      Regroup(got, [msg], Process(rest, c', OnClientMessage(results)).accepted);
    }
  }

  /** Besides, a server that lives has no complete message waiting in its buffer. */
  ghost predicate EndingFacts(s: System, request: Paths)
    requires Fits(request)
  {
    && Acknowledges(s.client, s.got, RequestMessage(request))
    && (s.alive ==> !FrontOf(s.serverBuffer).Complete?)
  }

  lemma ClientReadKeepsEnding(s: System, result: int, results: nat -> int, disk: Disk, request: Paths)
    requires Fits(request) && Invariant(s, disk, request) && EndingFacts(s, request)
    ensures EndingFacts(Step(s, ClientRead(result), results), request)
  {
    var n := ReadSize(s.clientBuffer, s.down, result);
    if !s.client.complete && result >= 0 && n > 0 {
      Stretch(EncodeAll(s.got), s.clientBuffer, s.down, n, s.server.tx.pending);
      ReadKeepsAcknowledging(s.clientBuffer + s.down[..n], s.down[n..] + s.server.tx.pending, s.server.log,
                             s.client, s.got, RequestMessage(request), results);
    }
  }

  lemma ClientFlushKeepsEnding(s: System, result: int, results: nat -> int, request: Paths)
    requires Fits(request) && EndingFacts(s, request)
    ensures EndingFacts(Step(s, ClientFlush(result), results), request)
  {
    ShortLog(RequestMessage(request));
    var n := Taken(s.client.tx, result);
    assert |s.client.tx.pending[n..]| == |s.client.tx.pending| - n;
  }

  lemma ServerReadKeepsEnding(s: System, result: int, env: Env, lastWrite: int, results: nat -> int, request: Paths)
    requires Fits(request) && EndingFacts(s, request)
    ensures EndingFacts(Step(s, ServerRead(result, env, lastWrite), results), request)
  {
    var n := ReadSize(s.serverBuffer, s.up, result);
    if s.alive && result >= 0 && n > 0 {
      ProcessVerdict(s.serverBuffer + s.up[..n], s.server, OnServerMessage(env));
    }
  }

  lemma StepKeepsEnding(s: System, a: Action, results: nat -> int, disk: Disk, request: Paths)
    requires Fits(request) && Invariant(s, disk, request) && EndingFacts(s, request)
    ensures EndingFacts(Step(s, a, results), request)
  {
    match a
    case ClientFlush(result) => ClientFlushKeepsEnding(s, result, results, request);
    case ClientRead(result) => ClientReadKeepsEnding(s, result, results, disk, request);
    case ServerRead(result, env, lastWrite) => ServerReadKeepsEnding(s, result, env, lastWrite, results, request);
    case ServerSend(_) =>
    case ServerFlush(_) =>
  }

  lemma {:induction false} RunKeepsEnding(disk: Disk, request: Paths, actions: seq<Action>, results: nat -> int)
    requires Fits(request)
    ensures EndingFacts(Run(Initial(disk, request), actions, results), request)
    decreases |actions|
  {
    if actions == [] {
      var m := RequestMessage(request);
      EncodeAllSnoc([], m);
      assert [] + [m] == [m] && [] + Encode(m) == Encode(m);
    } else {
      var n := |actions| - 1;
      RunKeepsEnding(disk, request, actions[..n], results);
      RunKeepsInvariant(disk, request, actions[..n], results);
      StepKeepsEnding(Run(Initial(disk, request), actions[..n], results), actions[n], results, disk, request);
    }
  }

  /** A server that lives and has been sent everything would hold the acknowledgement, complete, in its buffer. */
  lemma AcknowledgementIsRejected(s: System, disk: Disk, request: Paths)
    requires Fits(request) && Invariant(s, disk, request) && EndingFacts(s, request)
    requires EndMarks(s.got) > 0 && s.up == [] && s.client.tx.pending == []
    ensures !s.alive
  {
    var m := RequestMessage(request);
    if s.alive {
      TransportHolds(s, disk, request);
      ShortLog(m);
      assert s.served == [m];
      assert s.serverBuffer + s.up + s.client.tx.pending == s.serverBuffer;
      SameTail(EncodeAll([m]), Encode(ACK), s.serverBuffer);
      FrontIsEncoding(s.serverBuffer, ACK);
    }
  }

  lemma SameTail(a: seq<Byte>, b: seq<Byte>, c: seq<Byte>)
    requires a + b == a + c
    ensures b == c
  {
    assert (a + b)[|a|..] == b && (a + c)[|a|..] == c;
  }

  /**
   Every completed download ends the session: once the client has seen the end mark and all it sent has
   been read, its acknowledgement among it, the server has destroyed the session.
   */
  lemma CompletedDownloadEndsSession(disk: Disk, request: Paths, actions: seq<Action>, results: nat -> int)
    requires Fits(request)
    ensures var s := Run(Initial(disk, request), actions, results);
            EndMarks(s.got) > 0 && s.up == [] && s.client.tx.pending == [] ==> !s.alive
  {
    var s := Run(Initial(disk, request), actions, results);
    RunKeepsInvariant(disk, request, actions, results);
    RunKeepsEnding(disk, request, actions, results);
    if EndMarks(s.got) > 0 && s.up == [] && s.client.tx.pending == [] {
      AcknowledgementIsRejected(s, disk, request);
    }
  }

  /**
   The error callback: if there is room the last message is queued, then as much as `write()` takes of the
   contiguous bytes goes onto the wire, in order; the file is closed.
   */
  lemma DestroyOutcome(s: System, lastWrite: int)
    requires |s.server.tx.pending| + HEADER_SIZE < MAX_TX_BUFFER
    ensures var s' := Destroy(s, lastWrite);
            var room := HEADER_SIZE <= s.server.tx.Room();
            var queued := if room then s.server.tx.pending + Encode(LAST_MESSAGE) else s.server.tx.pending;
            var contiguous := if |queued| <= MAX_TX_BUFFER - s.server.tx.start then |queued|
                              else MAX_TX_BUFFER - s.server.tx.start;
            && !s'.alive && s'.server.session == s.server.session.(file := Closed) && s'.server.disk == s.server.disk
            && s'.down + s'.server.tx.pending == s.down + queued
            && |s'.down| == |s.down| + (if lastWrite <= 0 then 0
                                        else if lastWrite < contiguous then lastWrite else contiguous)
            && s'.server.log == (if room then s.server.log + [LAST_MESSAGE] else s.server.log)
  {
    ContiguousSpaceDecides(s.server.tx, Encode(LAST_MESSAGE));
    var sv := Post(s.server, LAST_MESSAGE).0;
    var n := Taken(sv.tx, lastWrite);
    assert sv.tx.pending == sv.tx.pending[..n] + sv.tx.pending[n..];
    Regroup(s.down, sv.tx.pending[..n], sv.tx.pending[n..]);
  }

  // ---------- when the session ends ----------

  predicate ServerReadFails(a: Action) {
    a.ServerRead? && a.result < 0
  }

  predicate FailsAt(actions: seq<Action>, i: int) {
    0 <= i < |actions| && ServerReadFails(actions[i])
  }

  ghost predicate SomeServerReadFailed(actions: seq<Action>) {
    exists i :: FailsAt(actions, i)
  }

  lemma LastServerReadFails(actions: seq<Action>)
    requires actions != []
    ensures var n := |actions| - 1;
            SomeServerReadFailed(actions) <==> SomeServerReadFailed(actions[..n]) || ServerReadFails(actions[n])
  {
    var n := |actions| - 1;
    if i :| FailsAt(actions[..n], i) {
      assert FailsAt(actions, i);
    }
    if ServerReadFails(actions[n]) {
      assert FailsAt(actions, n);
    }
    if i :| FailsAt(actions, i) {
      assert i < n ==> FailsAt(actions[..n], i);
    }
  }

  /** What the client sends is well-formed, so nothing but a rejected message stops the server's frame loop. */
  lemma NothingMalformedIsSent(s: System, disk: Disk, request: Paths)
    requires Fits(request) && Invariant(s, disk, request)
    ensures FrontOf(s.serverBuffer).Complete? || FrontOf(s.serverBuffer) == Incomplete
  {
    if !FrontOf(s.serverBuffer).Complete? {
      var tail := s.up + s.client.tx.pending;
      Regroup(s.serverBuffer, s.up, s.client.tx.pending);
      Regroup(EncodeAll(s.served), s.serverBuffer, tail);
      LeftoverIsShort(s.served, s.serverBuffer, tail, s.client.log);
      var ahead := s.client.log[|s.served|..];
      if ahead != [] {
        StrictPrefixIsIncomplete(s.serverBuffer, ahead[0]);
      }
    }
  }

  /**
   In any state, not only those of a download: a read that brings something ends the session unless it
   leaves an unfinished frame, and a client that is left with anything else stops.
   */
  lemma ReadEndsIff(s: System, result: int, env: Env, lastWrite: int, results: nat -> int)
    requires result >= 0
    ensures s.alive && ReadSize(s.serverBuffer, s.up, result) > 0 ==>
              var s' := Step(s, ServerRead(result, env, lastWrite), results);
              s'.alive <==> FrontOf(s'.serverBuffer) == Incomplete
    ensures !s.client.complete && ReadSize(s.clientBuffer, s.down, result) > 0 ==>
              var s' := Step(s, ClientRead(result), results);
              FrontOf(s'.clientBuffer) != Incomplete ==> s'.client.complete
  {
    ServerReadEndsIff(s, result, env, lastWrite, results);
    var n := ReadSize(s.clientBuffer, s.down, result);
    ProcessVerdict(s.clientBuffer + s.down[..n], s.client, OnClientMessage(results));
  }

  lemma ServerReadEndsIff(s: System, result: int, env: Env, lastWrite: int, results: nat -> int)
    requires result >= 0
    ensures s.alive && ReadSize(s.serverBuffer, s.up, result) > 0 ==>
              var s' := Step(s, ServerRead(result, env, lastWrite), results);
              s'.alive <==> FrontOf(s'.serverBuffer) == Incomplete
  {
    var n := ReadSize(s.serverBuffer, s.up, result);
    ProcessVerdict(s.serverBuffer + s.up[..n], s.server, OnServerMessage(env));
  }

  /** A server that reads lives on if and only if the read did not fail and left no complete message behind. */
  lemma ReadingServerLivesIff(s: System, a: Action, results: nat -> int, disk: Disk, request: Paths)
    requires Fits(request) && Invariant(s, disk, request) && EndingFacts(s, request) && a.ServerRead? && s.alive
    ensures var s' := Step(s, a, results);
            s'.alive <==> a.result >= 0 && !FrontOf(s'.serverBuffer).Complete?
  {
    var n := ReadSize(s.serverBuffer, s.up, a.result);
    ServerReadKeepsInvariant(s, a.result, a.env, a.lastWrite, results, disk, request);
    NothingMalformedIsSent(Step(s, a, results), disk, request);
    if a.result >= 0 && n > 0 {
      ServerReadEndsIff(s, a.result, a.env, a.lastWrite, results);
    }
  }

  lemma OnlyReadsEndSession(s: System, a: Action, results: nat -> int)
    requires !a.ServerRead? || !s.alive
    ensures var s' := Step(s, a, results);
            s'.alive == s.alive && s'.serverBuffer == s.serverBuffer
  {
  }

  /**
   In every run the server has destroyed the session if and only if a read failed or its dispatcher
   has rejected a message, the one that then stands complete at the front of its buffer.
   */
  lemma {:induction false} SessionEndsIff(disk: Disk, request: Paths, actions: seq<Action>, results: nat -> int)
    requires Fits(request)
    ensures var s := Run(Initial(disk, request), actions, results);
            !s.alive <==> SomeServerReadFailed(actions) || FrontOf(s.serverBuffer).Complete?
    decreases |actions|
  {
    if actions == [] {
    } else {
      var n := |actions| - 1;
      var s := Run(Initial(disk, request), actions[..n], results);
      SessionEndsIff(disk, request, actions[..n], results);
      RunKeepsInvariant(disk, request, actions[..n], results);
      RunKeepsEnding(disk, request, actions[..n], results);
      LastServerReadFails(actions);
      if actions[n].ServerRead? && s.alive {
        ReadingServerLivesIff(s, actions[n], results, disk, request);
      } else {
        OnlyReadsEndSession(s, actions[n], results);
      }
    }
  }
}
