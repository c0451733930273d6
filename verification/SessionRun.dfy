/**
 A session on the real objects under arbitrary messages: they follow the session function as long as
 every payload that is copied fits its buffer, and the first that does not is reported.
 */
module SessionRun {
  import opened TxRing
  import opened HandlerBuffers
  import opened ServerProtocol
  import opened PathAccess
  import opened MessageQueues
  import opened FileTransferServer

  /** The message of this event does not fit the buffer of its handler. */
  predicate Overruns(e: Event) {
    e.Message? && !StaysInServerBuffer(e.msg)
  }

  ghost predicate SomeOverruns(es: seq<Event>) {
    exists k :: 0 <= k < |es| && Overruns(es[k])
  }

  method HandleEvent(session: ClientSession, queue: MessageQueue, fs: FileSystem, e: Event, childPid: int, ptyFd: nat)
    returns (overrun: bool)
    requires queue.Valid() && ValidServer(ServerOf(session, queue, fs))
    modifies session`pid, session`ptyMasterFd, session`fileFd, session`connectionType, session`fileTransferStarted
    modifies fs, queue`txStart, queue`txEnd, queue`log, queue.txBuffer
    ensures queue.Valid() && (overrun <==> Overruns(e))
    ensures ServerOf(session, queue, fs) ==
            if overrun then old(ServerOf(session, queue, fs)) else Apply(old(ServerOf(session, queue, fs)), e)
    ensures !overrun ==>
              var before, after := old(ServerOf(session, queue, fs)), ServerOf(session, queue, fs);
              match e
              case Message(msg, env) => after == Handle(before, msg, env).0
              case Output(data) => after == HandlePtyData(before, data)
              case Send(readAt) => after == ServerProtocol.SendData(before, readAt)
              case Flushed(result) => queue.Ring() == Flush(old(queue.Ring()), result)
  {
    overrun := false;
    match e
    case Message(msg, env) =>
      var _, o := HandleMessage(session, queue, fs, msg, env, childPid, ptyFd);
      overrun := o;
    case Output(data) => ForwardPtyData(session, queue, fs, data);
    case Send(readAt) => FileTransferServer.SendData(session, queue, fs, readAt);
    case Flushed(result) =>
      var _ := queue.FlushWrites(result);
  }

  lemma NextEvent(disk: Disk, tx: Tx, es: seq<Event>, n: nat)
    requires tx.Valid() && n < |es|
    ensures Serving(disk, tx, es[..n + 1]) == Apply(Serving(disk, tx, es[..n]), es[n])
    ensures SomeOverruns(es[..n + 1]) <==> SomeOverruns(es[..n]) || Overruns(es[n])
  {
    var next := es[..n + 1];
    assert next[..n] == es[..n] && next[n] == es[n];
    if SomeOverruns(es[..n]) {
      var k :| 0 <= k < n && Overruns(es[..n][k]);
      assert Overruns(next[k]);
    }
    if SomeOverruns(next) {
      var k :| 0 <= k < n + 1 && Overruns(next[k]);
      assert k < n ==> Overruns(es[..n][k]);
    }
  }

  /**
   `handled` is the number of events up to the first that overruns, `children(k)` what fork() and openpty()
   give for the `k`-th event.
   */
  method RunSession(session: ClientSession, queue: MessageQueue, fs: FileSystem, es: seq<Event>,
                    children: nat -> (int, nat))
    returns (handled: nat)
    requires queue.Valid() && queue.log == [] && session.View() == NewSession()
    modifies session`pid, session`ptyMasterFd, session`fileFd, session`connectionType, session`fileTransferStarted
    modifies fs, queue`txStart, queue`txEnd, queue`log, queue.txBuffer
    ensures handled <= |es| && (handled < |es| ==> Overruns(es[handled])) && !SomeOverruns(es[..handled])
    ensures queue.Valid()
    ensures ServerOf(session, queue, fs) == Serving(old(fs.nodes), old(queue.Ring()), es[..handled])
    ensures SessionInvariant(ServerOf(session, queue, fs), old(fs.nodes))
  {
    ghost var disk, tx := fs.nodes, queue.Ring();
    handled := 0;
    var overrun := false;
    while handled < |es| && !overrun
      invariant 0 <= handled <= |es| && queue.Valid() && !SomeOverruns(es[..handled])
      invariant overrun ==> handled < |es| && Overruns(es[handled])
      invariant ServerOf(session, queue, fs) == Serving(disk, tx, es[..handled])
      decreases |es| - handled, !overrun
    {
      NextEvent(disk, tx, es, handled);
      var child := children(handled);
      overrun := HandleEvent(session, queue, fs, es[handled], child.0, child.1);
      handled := if overrun then handled else handled + 1;
    }
    SessionInvariantAlwaysHolds(disk, tx, es[..handled]);
  }
}
