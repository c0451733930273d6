/**
 What the outcomes of the client's calls of `write()` mean for a whole download.
 */
module DownloadWrites {
  import opened Frames
  import opened Reassembly
  import opened ByteStreams
  import opened Requests
  import opened FileSending
  import opened DownloadClient
  import opened ServerProtocol
  import opened Download
  import opened DownloadSafety

  /** One read: each accepted message is a write, or none, with the outcome of its number. */
  lemma {:induction false} ReadCountsWrites(b: seq<Byte>, c: LiveClient, got: seq<Message>, results: nat -> int)
    requires CountsWrites(c, got, 0, results) && (c.open <==> EndMarks(got) == 0)
    ensures var o := Process(b, c, OnClientMessage(results));
            CountsWrites(o.state, got + o.accepted, 0, results)
    decreases |b|
  {
    if !FrontOf(b).Complete? {
      assert got + [] == got;
    } else {
      var msg := FrontOf(b).msg;
      var rest := b[FrameSize(msg)..];
      var c' := ClientHandles(c, msg, results).0;
      DeliveredAppend(got, [msg]);
      DeliveredOne(msg);
      MessageCountsWrites(c, got, msg, 0, results);
      ReadCountsWrites(rest, c', got + [msg], results);
      Regroup(got, [msg], Process(rest, c', OnClientMessage(results)).accepted);
    }
  }

  lemma {:induction false} StepCountsWrites(s: System, a: Action, results: nat -> int, disk: Disk, request: Paths)
    requires Fits(request) && Invariant(s, disk, request) && CountsWrites(s.client, s.got, 0, results)
    ensures var s' := Step(s, a, results);
            CountsWrites(s'.client, s'.got, 0, results)
  {
    if a.ClientRead? {
      var n := ReadSize(s.clientBuffer, s.down, a.result);
      if !s.client.complete && a.result >= 0 && n > 0 {
        ReadCountsWrites(s.clientBuffer + s.down[..n], s.client, s.got, results);
      }
    }
  }

  lemma {:induction false} RunCountsWrites(disk: Disk, request: Paths, actions: seq<Action>, results: nat -> int)
    requires Fits(request)
    ensures var s := Run(Initial(disk, request), actions, results);
            CountsWrites(s.client, s.got, 0, results)
    decreases |actions|
  {
    if actions == [] {
    } else {
      var n := |actions| - 1;
      RunCountsWrites(disk, request, actions[..n], results);
      RunKeepsInvariant(disk, request, actions[..n], results);
      StepCountsWrites(Run(Initial(disk, request), actions[..n], results), actions[n], results, disk, request);
    }
  }

  /**
   Once the client has seen the end mark, its file is the source if and only if no call of `write()`
   fell short of the payload it was given.
   */
  lemma CompletedIsWholeIff(disk: Disk, request: Paths, actions: seq<Action>, results: nat -> int)
    requires Fits(request)
    ensures var s := Run(Initial(disk, request), actions, results);
            EndMarks(s.got) > 0 ==>
              (s.client.local == Requested(disk, request) <==> !SomeFellShort(s.got, 0, results))
  {
    RunCountsWrites(disk, request, actions, results);
    DownloadIsPrefixAndCompletionIsWhole(disk, request, actions, results);
  }

  // ---------- when the client stops ----------

  /** What the client's fields say of the messages it was given; `another` is a reason to stop besides them. */
  ghost predicate Account(c: Client, got: seq<Message>, results: nat -> int, another: bool) {
    && CountsWrites(c, got, 0, results) && (c.open <==> EndMarks(got) == 0)
    && (c.complete <==> another || Stops(got, 0, results))
  }

  lemma {:induction false} MessageKeepsAccount(c: LiveClient, got: seq<Message>, msg: Message, results: nat -> int,
                                               another: bool)
    requires Account(c, got, results, another)
    ensures Account(ClientHandles(c, msg, results).0, got + [msg], results, another)
  {
    EndAppend(got, msg);
    MessageCountsWrites(c, got, msg, 0, results);
    MessageKeepsReasons(c, got, msg, 0, results, another);
  }

  /** One read adds the messages' reasons to stop, and no other. */
  lemma {:induction false} ReadKeepsAccount(b: seq<Byte>, c: LiveClient, got: seq<Message>, results: nat -> int,
                                            another: bool)
    requires Account(c, got, results, another)
    ensures var o := Process(b, c, OnClientMessage(results));
            Account(o.state, got + o.accepted, results, another)
    decreases |b|
  {
    if !FrontOf(b).Complete? {
      assert got + [] == got;
    } else {
      var msg := FrontOf(b).msg;
      var rest := b[FrameSize(msg)..];
      var c' := ClientHandles(c, msg, results).0;
      MessageKeepsAccount(c, got, msg, results, another);
      ReadKeepsAccount(rest, c', got + [msg], results, another);
      Regroup(got, [msg], Process(rest, c', OnClientMessage(results)).accepted);
    }
  }

  predicate ReadFails(a: Action) {
    a.ClientRead? && a.result < 0
  }

  ghost predicate SomeReadFailed(actions: seq<Action>) {
    exists i :: 0 <= i < |actions| && ReadFails(actions[i])
  }

  lemma {:induction false} LastReadFails(actions: seq<Action>)
    requires actions != []
    ensures var n := |actions| - 1;
            SomeReadFailed(actions) <==> SomeReadFailed(actions[..n]) || ReadFails(actions[n])
  {
    var n := |actions| - 1;
    if i :| 0 <= i < n && ReadFails(actions[..n][i]) {
      assert ReadFails(actions[i]);
    }
    if i :| 0 <= i < |actions| && ReadFails(actions[i]) {
      assert i < n ==> ReadFails(actions[..n][i]);
    }
  }

  /** A read that gives something: every frame of this download is well-formed, so only messages are a reason. */
  lemma ReceiveKeepsReasons(s: System, n: nat, results: nat -> int, disk: Disk, request: Paths, another: bool)
    requires Fits(request) && Invariant(s, disk, request) && n <= |s.down|
    requires Account(s.client, s.got, results, another)
    ensures var o := Process(s.clientBuffer + s.down[..n], s.client, OnClientMessage(results));
            o.state.complete || o.verdict != Waiting <==> another || Stops(s.got + o.accepted, 0, results)
  {
    ReadKeepsAccount(s.clientBuffer + s.down[..n], s.client, s.got, results, another);
    ReceiveKeepsClient(s, n, results, disk, request);
  }

  /** Only a read gives the client messages or ends its event loop. */
  lemma OnlyReadsComplete(s: System, a: Action, results: nat -> int)
    ensures var s' := Step(s, a, results);
            if a.ClientRead? && !s.client.complete && a.result >= 0 then
              var o := Process(s.clientBuffer + s.down[..ReadSize(s.clientBuffer, s.down, a.result)], s.client,
                               OnClientMessage(results));
              && s'.got == (if ReadSize(s.clientBuffer, s.down, a.result) > 0 then s.got + o.accepted else s.got)
              && s'.client.complete == (ReadSize(s.clientBuffer, s.down, a.result) > 0 &&
                                        (o.state.complete || o.verdict != Waiting))
            else s'.got == s.got && s'.client.complete == (s.client.complete || ReadFails(a))
  {
  }

  lemma StepKeepsReasons(s: System, a: Action, results: nat -> int, disk: Disk, request: Paths, another: bool)
    requires Fits(request) && Invariant(s, disk, request)
    requires Account(s.client, s.got, results, another)
    ensures var s' := Step(s, a, results);
            s'.client.complete <==> another || ReadFails(a) || Stops(s'.got, 0, results)
  {
    OnlyReadsComplete(s, a, results);
    if a.ClientRead? && !s.client.complete && a.result >= 0 {
      var n := ReadSize(s.clientBuffer, s.down, a.result);
      ReceiveKeepsReasons(s, n, results, disk, request, another);
    }
  }

  /**
   In every run the client's event loop has ended if and only if a read failed, it was given an answer
   that does not begin with OK, a call of `write()` failed or fell short, or it was given the end mark.
   */
  lemma {:induction false} ClientStopsIff(disk: Disk, request: Paths, actions: seq<Action>, results: nat -> int)
    requires Fits(request)
    ensures var s := Run(Initial(disk, request), actions, results);
            s.client.complete <==> SomeReadFailed(actions) || Stops(s.got, 0, results)
    decreases |actions|
  {
    if actions == [] {
    } else {
      var n := |actions| - 1;
      ClientStopsIff(disk, request, actions[..n], results);
      RunCountsWrites(disk, request, actions[..n], results);
      RunKeepsInvariant(disk, request, actions[..n], results);
      LastReadFails(actions);
      StepKeepsReasons(Run(Initial(disk, request), actions[..n], results), actions[n], results, disk, request,
                       SomeReadFailed(actions[..n]));
    }
  }
}
