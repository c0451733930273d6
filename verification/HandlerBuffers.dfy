/**
 The fixed buffers on the handlers' stacks: a handler copies a payload to the start of its buffer
 and puts a terminator behind it, without looking at the length.
 */
module HandlerBuffers {
  import opened Frames
  import opened Options
  import opened Requests

  const REQUEST_BUFFER := MAX_MESSAGE_DATA + 1
  const MAX_PATH_LENGTH := 300

  /** The buffer after copy and terminator, if both stay inside it; `before` is whatever it held. */
  function Terminated(before: seq<Byte>, data: seq<Byte>): (after: Option<seq<Byte>>)
    ensures after.Some? <==> |data| + 1 <= |before|
  {
    if |data| < |before| then Some(data + [NUL] + before[|data| + 1..]) else None
  }

  /** What the handler then reads is the C string of the payload, whatever the buffer held before. */
  lemma {:induction false} TerminatedHoldsTheText(before: seq<Byte>, data: seq<Byte>)
    requires |data| < |before|
    ensures CString(Terminated(before, data).value) == CString(data)
    ensures ParseRequest(Terminated(before, data).value) == ParseRequest(data)
  {
    CStringIgnoresTail(data, before[|data| + 1..]);
  }

  lemma {:induction false} CStringIgnoresTail(data: seq<Byte>, tail: seq<Byte>)
    ensures CString(data + [NUL] + tail) == CString(data)
  {
    if data == [] {
    } else {
      assert (data + [NUL] + tail)[1..] == data[1..] + [NUL] + tail;
      CStringIgnoresTail(data[1..], tail);
    }
  }

  /** The kinds of message whose payload a server handler copies. */
  predicate CopiedByServer(kind: UInt32) {
    kind == OPEN_CMD || kind == FILE_UPLOAD_START || kind == FILE_DOWNLOAD_START
  }

  predicate StaysInServerBuffer(m: Message) {
    CopiedByServer(m.kind) ==> |m.data| < REQUEST_BUFFER
  }

  predicate StaysInClientBuffer(m: Message) {
    m.kind == FILE_READY_SEND || m.kind == FILE_READY_RECV ==> |m.data| < MAX_PATH_LENGTH
  }

  /** The copy itself, into a buffer whose old contents are unknown. */
  method CopyTerminated(data: seq<Byte>, size: nat) returns (buffer: array<Byte>)
    requires |data| < size
    ensures fresh(buffer) && buffer.Length == size && data + [NUL] <= buffer[..]
    ensures CString(buffer[..]) == CString(data)
    ensures ParseRequest(buffer[..]) == ParseRequest(data)
  {
    buffer := new Byte[size];
    ghost var before := buffer[..];
    forall i | 0 <= i < |data| {
      buffer[i] := data[i];
    }
    buffer[|data|] := NUL;
    assert buffer[..] == Terminated(before, data).value;
    TerminatedHoldsTheText(before, data);
  }
}
