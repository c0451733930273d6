/**
 The read-and-queue loop of both file senders, on a real message queue.
 */
module ChunkSending {
  import opened Frames
  import opened Options
  import opened FileSending
  import opened MessageQueues

  /** The read-and-queue loop, on a descriptor whose position is `start`. */
  method SendChunks(queue: MessageQueue, source: seq<Byte>, start: nat, readAt: nat -> int)
    returns (exit: Exit, pos: nat, ghost queued: seq<Message>)
    requires queue.Valid() && start <= |source|
    modifies queue`txEnd, queue`log, queue.txBuffer
    ensures queue.Valid()
    ensures SendLoop(source, start, old(queue.Ring()), readAt) == Sent(exit, pos, queue.Ring(), queued)
    ensures queue.log == old(queue.log) + queued
  {
    ghost var tx := queue.Ring();
    ghost var rest := SendLoop(source, start, tx, readAt);
    ghost var whole := rest;
    pos, queued := start, [];
    while true
      invariant queue.Valid() && queue.Ring() == tx && pos <= |source|
      invariant rest == SendLoop(source, pos, tx, readAt)
      invariant whole.exit == rest.exit && whole.pos == rest.pos && whole.tx == rest.tx
      invariant whole.msgs == queued + rest.msgs && queue.log == old(queue.log) + queued
      decreases |source| - pos
    {
      ghost var here := pos;
      var left, bytesSent, it := SendOnce(queue, source[pos..], pos, readAt(pos));
      pos := pos + bytesSent;
      SendLoopUnrolls(source, here, tx, readAt, it, pos);
      if left.Some? {
        Regroup(old(queue.log), queued, it.msgs);
        return left.value, pos, queued + it.msgs;
      }
      Regroup(old(queue.log), queued, [it.chunk]);
      tx, rest := it.tx, SendLoop(source, pos, it.tx, readAt);
      Regroup(queued, [it.chunk], rest.msgs);
      queued := queued + [it.chunk];
    }
  }

  /** One iteration of the send loop, shared by server and client: read, queue, test for saturation. */
  method SendOnce(queue: MessageQueue, left: seq<Byte>, ghost pos: nat, readResult: int)
    returns (exit: Option<Exit>, bytesSent: nat, ghost it: Iteration)
    requires queue.Valid()
    modifies queue`txEnd, queue`log, queue.txBuffer
    ensures queue.Valid()
    ensures it == Iterate(left, pos, old(queue.Ring()), readResult) && queue.Ring() == it.tx
    ensures queue.log == old(queue.log) + (if it.Leave? then it.msgs else [it.chunk])
    ensures it.Leave? ==> exit == Some(it.exit) && pos + bytesSent == it.pos
    ensures it.Continue? ==> exit == None && bytesSent == |it.chunk.data|
  {
    it := Iterate(left, pos, queue.Ring(), readResult);
    var bytesRead := ReadCount(readResult, |left|);
    if bytesRead < 0 {
      return Some(Aborted), 0, it;
    }
    if bytesRead == 0 {
      var ended := queue.Write(END_MARK);
      return Some(if ended then Finished else Aborted), 0, it;
    }
    var sent := queue.Write(Chunk(left[..bytesRead]));
    if !sent {
      return Some(Aborted), 0, it;
    }
    var saturated := queue.IsSaturated();
    return if saturated then Some(Paused) else None, bytesRead, it;
  }
}
