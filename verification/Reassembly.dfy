/**
 The receiving half of a message queue as a function: what one pass of the frame loop
 does to a buffer, and what a whole run of reads does to a stream of bytes.

 A message callback with its context argument is a function `handle` on a state of any
 type: it returns the new state and whether it accepted the message.
 */
module Reassembly {
  import opened Frames

  const MAX_RX_BUFFER := 100_000

  /** Why the frame loop stopped. */
  datatype Verdict = Waiting | InvalidMagic | HandlerError | OversizeFrame

  datatype Outcome<S> = Outcome(state: S, accepted: seq<Message>, rest: seq<Byte>, verdict: Verdict)

  function Process<S>(b: seq<Byte>, s: S, handle: (S, Message) -> (S, bool)): Outcome<S>
    decreases |b|
  {
    match FrontOf(b)
    case Incomplete => Outcome(s, [], b, Waiting)
    case BadMagic => Outcome(s, [], b, InvalidMagic)
    case Oversize => Outcome(s, [], b, OversizeFrame)
    case Complete(m) =>
      var (s', ok) := handle(s, m);
      if !ok then Outcome(s', [], b, HandlerError)
      else
        var o := Process(b[FrameSize(m)..], s', handle);
        Outcome(o.state, [m] + o.accepted, o.rest, o.verdict)
  }

  /** The handler's state after it has been given `ms` one by one. */
  function Fold<S>(ms: seq<Message>, s: S, handle: (S, Message) -> (S, bool)): S {
    if ms == [] then s else Fold(ms[1..], handle(s, ms[0]).0, handle)
  }

  /** The handler accepts each of `ms` when they are given to it one by one from `s`. */
  predicate AcceptsAll<S>(ms: seq<Message>, s: S, handle: (S, Message) -> (S, bool)) {
    ms == [] || (handle(s, ms[0]).1 && AcceptsAll(ms[1..], handle(s, ms[0]).0, handle))
  }

  /** One pass splits the buffer into the frames it accepted and the bytes it left. */
  lemma {:induction false} ProcessSplitsBuffer<S>(b: seq<Byte>, s: S, handle: (S, Message) -> (S, bool))
    ensures var o := Process(b, s, handle);
            EncodeAll(o.accepted) + o.rest == b
    decreases |b|
  {
    if !FrontOf(b).Complete? {
    } else {
      var m := FrontOf(b).msg;
      var (s', ok) := handle(s, m);
      if ok {
        var tail := b[FrameSize(m)..];
        ProcessSplitsBuffer(tail, s', handle);
        var o := Process(tail, s', handle);
        EncodeAllCons(m, o.accepted);
        FrameSplit(b, m);
        Regroup(Encode(m), EncodeAll(o.accepted), o.rest);
      }
    }
  }

  /**
   What one pass leaves: the accepted messages are exactly those the handler took, and the
   verdict says what stands at the front of the remaining bytes.
   */
  lemma {:induction false} ProcessVerdict<S>(b: seq<Byte>, s: S, handle: (S, Message) -> (S, bool))
    ensures var o := Process(b, s, handle);
            && AcceptsAll(o.accepted, s, handle)
            && match o.verdict
               case Waiting => FrontOf(o.rest) == Incomplete && o.state == Fold(o.accepted, s, handle)
               case InvalidMagic => FrontOf(o.rest) == BadMagic && o.state == Fold(o.accepted, s, handle)
               case OversizeFrame => FrontOf(o.rest) == Oversize && o.state == Fold(o.accepted, s, handle)
               case HandlerError =>
                 && FrontOf(o.rest).Complete?
                 && handle(Fold(o.accepted, s, handle), FrontOf(o.rest).msg) == (o.state, false)
    decreases |b|
  {
    if !FrontOf(b).Complete? {
    } else {
      var m := FrontOf(b).msg;
      var (s', ok) := handle(s, m);
      if ok {
        var tail := b[FrameSize(m)..];
        ProcessVerdict(tail, s', handle);
        var o := Process(tail, s', handle);
        assert ([m] + o.accepted)[1..] == o.accepted;
      }
    }
  }

  /** A buffer that holds one frame is handed over and emptied. */
  lemma ProcessOne<S>(m: Message, s: S, handle: (S, Message) -> (S, bool))
    requires handle(s, m).1
    ensures Process(Encode(m), s, handle) == Outcome(handle(s, m).0, [m], [], Waiting)
  {
    FrontIsEncoding(Encode(m), m);
    assert Encode(m)[FrameSize(m)..] == [];
    assert [m] + [] == [m];
  }

  /** With a handler that accepts, a pass takes exactly the complete frames of the buffer. */
  lemma AcceptingPassIsParse<S>(b: seq<Byte>, s: S, handle: (S, Message) -> (S, bool))
    requires forall t, m :: handle(t, m).1
    ensures Process(b, s, handle).accepted == Parse(b).msgs
  {
    var o := Process(b, s, handle);
    ProcessSplitsBuffer(b, s, handle);
    ProcessVerdict(b, s, handle);
    ParseInvertsEncode(o.accepted, o.rest);
  }

  // ---------- runs of reads ----------

  /** The receive buffer, the handler's state and the messages the handler has accepted. */
  datatype Reader<S> = Reader(buffer: seq<Byte>, state: S, accepted: seq<Message>)

  /** One call: an empty chunk (nothing read) returns before the frame loop. */
  function ReadChunk<S>(r: Reader<S>, chunk: seq<Byte>, handle: (S, Message) -> (S, bool)): Reader<S> {
    if chunk == [] then r
    else
      var o := Process(r.buffer + chunk, r.state, handle);
      Reader(o.rest, o.state, r.accepted + o.accepted)
  }

  function ReadAll<S>(r: Reader<S>, chunks: seq<seq<Byte>>, handle: (S, Message) -> (S, bool)): Reader<S>
    decreases |chunks|
  {
    if chunks == [] then r
    else
      var n := |chunks| - 1;
      ReadChunk(ReadAll(r, chunks[..n], handle), chunks[n], handle)
  }

  function Flatten(chunks: seq<seq<Byte>>): seq<Byte>
    decreases |chunks|
  {
    if chunks == [] then [] else Flatten(chunks[..|chunks| - 1]) + chunks[|chunks| - 1]
  }

  /**
   For any handler, accepting or not, and any chunking: the accepted frames followed by the
   buffer are the bytes read.  No message is skipped, duplicated or altered.
   */
  lemma {:induction false} AcceptedExactlyOnce<S>(s: S, chunks: seq<seq<Byte>>, handle: (S, Message) -> (S, bool))
    ensures var r := ReadAll(Reader([], s, []), chunks, handle);
            EncodeAll(r.accepted) + r.buffer == Flatten(chunks)
    decreases |chunks|
  {
    if chunks == [] {
    } else {
      var n := |chunks| - 1;
      AcceptedExactlyOnce(s, chunks[..n], handle);
      ReadChunkSplits(ReadAll(Reader([], s, []), chunks[..n], handle), chunks[n], handle);
    }
  }

  lemma ReadChunkSplits<S>(r: Reader<S>, chunk: seq<Byte>, handle: (S, Message) -> (S, bool))
    ensures var r' := ReadChunk(r, chunk, handle);
            EncodeAll(r'.accepted) + r'.buffer == EncodeAll(r.accepted) + r.buffer + chunk
  {
    if chunk != [] {
      var o := Process(r.buffer + chunk, r.state, handle);
      ProcessSplitsBuffer(r.buffer + chunk, r.state, handle);
      EncodeAllAppend(r.accepted, o.accepted);
      Regroup(EncodeAll(r.accepted), EncodeAll(o.accepted), o.rest);
      Regroup(EncodeAll(r.accepted), r.buffer, chunk);
    } else {
      assert r.buffer + chunk == r.buffer;
    }
  }

  /** A handler that never rejects sees the stream, whatever the chunks: a parser of the concatenation. */
  lemma {:induction false} ChunkingIndependence<S>(s: S, chunks: seq<seq<Byte>>, handle: (S, Message) -> (S, bool))
    requires forall t, m :: handle(t, m).1
    ensures var r := ReadAll(Reader([], s, []), chunks, handle);
            var p := Parse(Flatten(chunks));
            && r.accepted == p.msgs
            && r.buffer == p.rest
            && r.state == Fold(p.msgs, s, handle)
  {
    var r := ReadAll(Reader([], s, []), chunks, handle);
    AcceptedExactlyOnce(s, chunks, handle);
    AcceptingReaderIsDrained(s, chunks, handle);
    ParseInvertsEncode(r.accepted, r.buffer);
  }

  lemma {:induction false} AcceptingReaderIsDrained<S>(s: S, chunks: seq<seq<Byte>>, handle: (S, Message) -> (S, bool))
    requires forall t, m :: handle(t, m).1
    ensures var r := ReadAll(Reader([], s, []), chunks, handle);
            !FrontOf(r.buffer).Complete? && r.state == Fold(r.accepted, s, handle)
    decreases |chunks|
  {
    if chunks == [] {
    } else {
      var n := |chunks| - 1;
      AcceptingReaderIsDrained(s, chunks[..n], handle);
      ReadChunkKeepsDrained(s, ReadAll(Reader([], s, []), chunks[..n], handle), chunks[n], handle);
    }
  }

  lemma ReadChunkKeepsDrained<S>(s: S, r: Reader<S>, chunk: seq<Byte>, handle: (S, Message) -> (S, bool))
    requires forall t, m :: handle(t, m).1
    requires !FrontOf(r.buffer).Complete? && r.state == Fold(r.accepted, s, handle)
    ensures var r' := ReadChunk(r, chunk, handle);
            !FrontOf(r'.buffer).Complete? && r'.state == Fold(r'.accepted, s, handle)
  {
    if chunk != [] {
      ProcessVerdict(r.buffer + chunk, r.state, handle);
      FoldAppend(r.accepted, Process(r.buffer + chunk, r.state, handle).accepted, s, handle);
    }
  }

  lemma {:induction false} FoldAppend<S>(a: seq<Message>, b: seq<Message>, s: S, handle: (S, Message) -> (S, bool))
    ensures Fold(a + b, s, handle) == Fold(b, Fold(a, s, handle), handle)
  {
    if a == [] {
      assert a + b == b;
    } else {
      assert (a + b)[1..] == a[1..] + b;
      FoldAppend(a[1..], b, handle(s, a[0]).0, handle);
    }
  }

  /** After a bad magic number, no later read on the queue delivers anything, whatever arrives. */
  lemma {:induction false} BadMagicIsForever<S>(r: Reader<S>, chunks: seq<seq<Byte>>, handle: (S, Message) -> (S, bool))
    requires FrontOf(r.buffer) == BadMagic
    ensures var r' := ReadAll(r, chunks, handle);
            r'.accepted == r.accepted && r'.state == r.state && r'.buffer == r.buffer + Flatten(chunks)
    decreases |chunks|
  {
    if chunks == [] {
      assert r.buffer + [] == r.buffer;
    } else {
      var n := |chunks| - 1;
      BadMagicIsForever(r, chunks[..n], handle);
      var q := ReadAll(r, chunks[..n], handle);
      FrontIsStable(r.buffer, Flatten(chunks[..n]) + chunks[n]);
      Regroup(r.buffer, Flatten(chunks[..n]), chunks[n]);
      assert q.buffer + chunks[n] == r.buffer + Flatten(chunks);
      assert q.accepted + [] == q.accepted;
      if chunks[n] == [] {
        assert q.buffer + chunks[n] == q.buffer;
      }
    }
  }

  /** A rejected message stays at the front: the next read that brings bytes presents it first, again. */
  lemma RejectedIsPresentedAgain<S>(r: Reader<S>, chunk: seq<Byte>, next: seq<Byte>,
                                    handle: (S, Message) -> (S, bool))
    requires chunk != [] && next != []
    ensures var q := ReadChunk(r, chunk, handle);
            var front := FrontOf(q.buffer);
            Process(r.buffer + chunk, r.state, handle).verdict == HandlerError ==>
              && front.Complete?
              && FrontOf(q.buffer + next) == front
              && (handle(q.state, front.msg).1 ==> q.accepted + [front.msg] <= ReadChunk(q, next, handle).accepted)
              && (!handle(q.state, front.msg).1 ==>
                  ReadChunk(q, next, handle) == Reader(q.buffer + next, handle(q.state, front.msg).0, q.accepted))
  {
    ProcessVerdict(r.buffer + chunk, r.state, handle);
    var q := ReadChunk(r, chunk, handle);
    if Process(r.buffer + chunk, r.state, handle).verdict == HandlerError {
      FrontIsStable(q.buffer, next);
      NextReadStartsAtFront(q, next, FrontOf(q.buffer).msg, handle);
    }
  }

  lemma NextReadStartsAtFront<S>(q: Reader<S>, next: seq<Byte>, m: Message, handle: (S, Message) -> (S, bool))
    requires next != [] && FrontOf(q.buffer + next) == Complete(m)
    ensures handle(q.state, m).1 ==> q.accepted + [m] <= ReadChunk(q, next, handle).accepted
    ensures !handle(q.state, m).1 ==>
              ReadChunk(q, next, handle) == Reader(q.buffer + next, handle(q.state, m).0, q.accepted)
  {
    assert q.accepted + [] == q.accepted;
    var b := q.buffer + next;
    var (s', ok) := handle(q.state, m);
    if ok {
      var o := Process(b[FrameSize(m)..], s', handle);
      Regroup(q.accepted, [m], o.accepted);
    }
  }

  /** `b` ends strictly inside the first of the messages still to come, or there are none. */
  predicate StopsInside(b: seq<Byte>, ahead: seq<Message>) {
    if ahead == [] then b == [] else b < Encode(ahead[0])
  }

  /**
   With well-formed frames of at most 4096 payload bytes and an accepting handler, the buffer
   always ends as a strict prefix of the next frame, so the next read has room for 95,893 bytes.
   */
  lemma RoomForNextRead<S>(s: S, ms: seq<Message>, unread: seq<Byte>, chunks: seq<seq<Byte>>,
                           handle: (S, Message) -> (S, bool))
    requires forall t, m :: handle(t, m).1
    requires forall m :: m in ms ==> Sendable(m)
    requires Flatten(chunks) + unread == EncodeAll(ms)
    ensures var r := ReadAll(Reader([], s, []), chunks, handle);
            && r.accepted <= ms
            && StopsInside(r.buffer, ms[|r.accepted|..])
            && MAX_RX_BUFFER - |r.buffer| >= 95_893
  {
    var r := ReadAll(Reader([], s, []), chunks, handle);
    AcceptedExactlyOnce(s, chunks, handle);
    AcceptingReaderIsDrained(s, chunks, handle);
    LeftoverIsShort(r.accepted, r.buffer, unread, ms);
  }

  lemma LeftoverIsShort(taken: seq<Message>, b: seq<Byte>, unread: seq<Byte>, ms: seq<Message>)
    requires EncodeAll(taken) + b + unread == EncodeAll(ms)
    requires !FrontOf(b).Complete?
    requires forall m :: m in ms ==> Sendable(m)
    ensures taken <= ms
    ensures StopsInside(b, ms[|taken|..])
    ensures |b| < HEADER_SIZE + MAX_MESSAGE_DATA
  {
    LeftoverStopsInside(taken, b, unread, ms);
    var ahead := ms[|taken|..];
    if ahead != [] {
      assert ahead[0] in ms;
    }
  }

  lemma LeftoverStopsInside(taken: seq<Message>, b: seq<Byte>, unread: seq<Byte>, ms: seq<Message>)
    requires EncodeAll(taken) + b + unread == EncodeAll(ms)
    requires !FrontOf(b).Complete?
    ensures taken <= ms
    ensures StopsInside(b, ms[|taken|..])
  {
    Regroup(EncodeAll(taken), b, unread);
    FramingIsPrefixFree(taken, b + unread, ms);
    var ahead := ms[|taken|..];
    if ahead != [] {
      FrontIsEncoding(b, ahead[0]);
      PrefixesCompare(b, unread, Encode(ahead[0]), EncodeAll(ahead[1..]));
    }
  }

  lemma PrefixesCompare<T>(a: seq<T>, b: seq<T>, c: seq<T>, d: seq<T>)
    requires a + b == c + d
    ensures c <= a || a < c
  {
    if |c| <= |a| {
      assert (a + b)[..|c|] == a[..|c|];
    } else {
      assert (a + b)[..|a|] == c[..|a|];
    }
  }
}
