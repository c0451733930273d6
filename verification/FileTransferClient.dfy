/**
 The client's file transfer on the variables it updates in place: the open local file and the
 flag that ends its event loop.
 */
module FileTransferClient {
  import opened Frames
  import opened HandlerBuffers
  import opened FileSending
  import opened MessageQueues
  import opened DownloadClient
  import ChunkSending
  import ServerProtocol

  /**
   Copies an answer, without looking at its length, and compares how it starts.  `overrun` reports an
   answer that does not fit the buffer: the model stops where the copy would leave it.
   */
  method ReadAnswer(msg: Message) returns (ok: bool, overrun: bool)
    ensures overrun <==> |msg.data| >= MAX_PATH_LENGTH
    ensures !overrun ==> (ok <==> ServerProtocol.SaysOk(msg.data))
  {
    if |msg.data| >= MAX_PATH_LENGTH {
      return false, true;
    }
    var response := CopyTerminated(msg.data, MAX_PATH_LENGTH);
    ServerProtocol.CopySaysOkIff(msg.data, response[..]);
    return ServerProtocol.SaysOk(response[..]), false;
  }

  /**
   A download: the local file is created empty and appended to.  `writeCalls` numbers the calls of
   `write()`, whose outcomes are given as a function of that number.
   */
  class Downloader {
    var fileOpen: bool
    var localFile: seq<Byte>
    var transferComplete: bool
    var writeCalls: nat
    ghost var short: bool

    constructor ()
      ensures fileOpen && localFile == [] && !transferComplete && writeCalls == 0 && !short
    {
      fileOpen, localFile, transferComplete, writeCalls, short := true, [], false, 0, false;
    }

    ghost function View(queue: MessageQueue): (c: Client)
      reads this, queue, queue.txBuffer
      requires queue.Valid()
      ensures c.tx.Valid()
    {
      Client(fileOpen, localFile, transferComplete, queue.Ring(), queue.log, writeCalls, short)
    }

    /** A data message: the payload is appended, or the transfer is given up. */
    method ReceiveData(ghost queue: MessageQueue, msg: Message, result: int)
      requires queue.Valid() && msg.kind == FILE_DATA
      modifies this
      ensures View(queue) == HandleDownload(old(View(queue)), msg, result)
    {
      if !fileOpen {
        transferComplete := true;
        return;
      }
      var bytesWritten := if result < 0 then -1 else if result < |msg.data| then result else |msg.data|;
      if bytesWritten > 0 {
        localFile := localFile + msg.data[..bytesWritten];
      }
      writeCalls := writeCalls + 1;
      if bytesWritten != |msg.data| {
        transferComplete := true;
      }
      short := short || (if bytesWritten < 0 then 0 else bytesWritten) != |msg.data|;
    }

    /** The message handler; it never reports failure to the frame loop. */
    method HandleDownloadMessage(queue: MessageQueue, msg: Message, result: int)
      returns (status: int, overrun: bool)
      requires queue.Valid()
      modifies this, queue`txEnd, queue`log, queue.txBuffer
      ensures queue.Valid() && status == 0
      ensures overrun <==> msg.kind == FILE_READY_RECV && !StaysInClientBuffer(msg)
      ensures View(queue) == if overrun then old(View(queue)) else HandleDownload(old(View(queue)), msg, result)
    {
      status, overrun := 0, false;
      if msg.kind == FILE_READY_RECV {
        var ok;
        ok, overrun := ReadAnswer(msg);
        if !overrun && !ok {
          transferComplete := true;
        }
      } else if msg.kind == FILE_DATA {
        ReceiveData(queue, msg, result);
      } else if msg.kind == FILE_DATA_END {
        if fileOpen {
          fileOpen := false;
        }
        var _ := queue.Write(ACK);
        transferComplete := true;
      }
    }
  }

  /** An upload: the local file is read from a position that survives between calls. */
  class Uploader {
    const source: seq<Byte>
    var fileOpen: bool
    var position: nat
    var transferComplete: bool

    constructor (source: seq<Byte>)
      ensures this.source == source && fileOpen && position == 0 && !transferComplete
    {
      this.source := source;
      fileOpen, position, transferComplete := true, 0, false;
    }

    /** Queues a begin mark on every call, then chunks until the file ends or the queue is saturated. */
    method SendFileData(queue: MessageQueue, readAt: nat -> int)
      requires queue.Valid() && position <= |source|
      modifies `position, `fileOpen, queue`txEnd, queue`log, queue.txBuffer
      ensures queue.Valid() && position <= |source|
      ensures forall begun ::
                Sender(fileOpen, begun || queue.log != old(queue.log), position, queue.Ring(), queue.log) ==
                Call(Sender(old(fileOpen), begun, old(position), old(queue.Ring()), old(queue.log)),
                     source, true, readAt)
    {
      if !fileOpen {
        return;
      }
      var begun := queue.Write(BEGIN_MARK);
      if !begun {
        return;
      }
      ghost var sender := Sender(true, true, position, queue.Ring(), queue.log);
      var exit, pos, queued := ChunkSending.SendChunks(queue, source, position, readAt);
      assert FileSending.SendChunks(sender, source, readAt)
          == Sender(exit == Paused, true, pos, queue.Ring(), queue.log);
      position := pos;
      fileOpen := exit == Paused;
    }

    /** The message handler: a granting answer starts the sender, a refusal or the acknowledgement ends the loop. */
    method HandleUploadMessage(queue: MessageQueue, msg: Message, readAt: nat -> int)
      returns (status: int, overrun: bool)
      requires queue.Valid() && position <= |source|
      modifies this, queue`txEnd, queue`log, queue.txBuffer
      ensures queue.Valid() && position <= |source| && status == 0
      ensures overrun <==> msg.kind == FILE_READY_SEND && !StaysInClientBuffer(msg)
      ensures transferComplete <==>
              || old(transferComplete) || msg.kind == FILE_DATA_END_ACK
              || (msg.kind == FILE_READY_SEND && !overrun && !ServerProtocol.SaysOk(msg.data))
      ensures if msg.kind == FILE_READY_SEND && !overrun && ServerProtocol.SaysOk(msg.data) then
                forall begun ::
                  Sender(fileOpen, begun || queue.log != old(queue.log), position, queue.Ring(), queue.log) ==
                  Call(Sender(old(fileOpen), begun, old(position), old(queue.Ring()), old(queue.log)),
                       source, true, readAt)
              else
                && fileOpen == old(fileOpen) && position == old(position)
                && queue.Ring() == old(queue.Ring()) && queue.log == old(queue.log)
    {
      status, overrun := 0, false;
      if msg.kind == FILE_READY_SEND {
        var ok;
        ok, overrun := ReadAnswer(msg);
        assert queue.Ring() == old(queue.Ring());
        if !overrun {
          if ok {
            SendFileData(queue, readAt);
          } else {
            transferComplete := true;
          }
        }
      } else if msg.kind == FILE_DATA_END_ACK {
        transferComplete := true;
      }
    }
  }
}
