/**
 What the client's event loop waits for.  It calls select() on its socket before its first flush
 and has no write set, so it reads and flushes only when its peer has sent something or has hung up.
 The steps of the system in Download are not bound to that; here they are.
 */
module InputWaiting {
  import opened Requests
  import opened FileSending
  import opened ServerProtocol
  import opened Download
  import opened DownloadSafety

  /** select() lets the client go on when there are bytes to read or the server has closed the connection. */
  predicate Readable(s: System) {
    s.down != [] || !s.alive
  }

  predicate IsClientStep(a: Action) {
    a.ClientRead? || a.ClientFlush?
  }

  /** The client takes its steps only when its socket is readable. */
  ghost predicate WaitsForInput(disk: Disk, request: Paths, actions: seq<Action>, results: nat -> int)
    requires Fits(request)
  {
    forall k :: 0 <= k < |actions| && IsClientStep(actions[k]) ==>
                  Readable(Run(Initial(disk, request), actions[..k], results))
  }

  /** The server has been given nothing, and while the session lives neither side has sent anything. */
  ghost predicate Idle(s: System, disk: Disk) {
    && s.served == [] && Delivered(s.server.log) == [] && EndMarks(s.server.log) == 0
    && (s.alive ==> Accepted(s.server, disk) && s.up == [] && s.down == [])
  }

  lemma StepKeepsIdle(s: System, a: Action, results: nat -> int, disk: Disk)
    requires Idle(s, disk) && (IsClientStep(a) ==> Readable(s))
    ensures Idle(Step(s, a, results), disk)
  {
    LogOther([], LAST_MESSAGE);
    assert [] + [LAST_MESSAGE] == [LAST_MESSAGE];
  }

  lemma {:induction false} RunKeepsIdle(disk: Disk, request: Paths, actions: seq<Action>, results: nat -> int)
    requires Fits(request) && WaitsForInput(disk, request, actions, results)
    ensures Idle(Run(Initial(disk, request), actions, results), disk)
    decreases |actions|
  {
    if actions == [] {
    } else {
      var n := |actions| - 1;
      assert forall k :: 0 <= k < n ==> actions[..n][..k] == actions[..k];
      RunKeepsIdle(disk, request, actions[..n], results);
      StepKeepsIdle(Run(Initial(disk, request), actions[..n], results), actions[n], results, disk);
    }
  }

  /**
   With a client that waits for input before it flushes, no download ever starts: the server is never
   given the request, and the client's file stays empty.
   */
  lemma WaitingDownloadNeverStarts(disk: Disk, request: Paths, actions: seq<Action>, results: nat -> int)
    requires Fits(request) && WaitsForInput(disk, request, actions, results)
    ensures var s := Run(Initial(disk, request), actions, results);
            s.served == [] && s.client.local == [] && EndMarks(s.got) == 0
  {
    var s := Run(Initial(disk, request), actions, results);
    RunKeepsIdle(disk, request, actions, results);
    RunKeepsInvariant(disk, request, actions, results);
    TransitIsTheUnreadLog(s);
    PrefixEndMarks(s.got, s.server.log);
  }
}
