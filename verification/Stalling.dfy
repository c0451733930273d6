/**
 When a receive buffer can fill up for good.  `read()` is offered only the room left in the
 buffer, so a frame larger than the buffer can never become complete in it.
 */
module Stalling {
  import opened Frames
  import opened Reassembly

  /** The reader after some reads on a new queue. */
  function ReaderAfter<S>(s: S, chunks: seq<seq<Byte>>, handle: (S, Message) -> (S, bool)): Reader<S> {
    ReadAll(Reader([], s, []), chunks, handle)
  }

  /** No read returns more than the room it was offered. */
  predicate WithinRoom<S>(s: S, chunks: seq<seq<Byte>>, handle: (S, Message) -> (S, bool))
    decreases |chunks|
  {
    chunks == []
    || var n := |chunks| - 1;
       && WithinRoom(s, chunks[..n], handle)
       && |ReaderAfter(s, chunks[..n], handle).buffer| + |chunks[n]| <= MAX_RX_BUFFER
  }

  /** Reads of a stretch of the encoded messages, ending with a buffer that has no room left. */
  predicate StallsOn<S>(s: S, ms: seq<Message>, chunks: seq<seq<Byte>>, unread: seq<Byte>,
                        handle: (S, Message) -> (S, bool)) {
    && WithinRoom(s, chunks, handle)
    && Flatten(chunks) + unread == EncodeAll(ms)
    && |ReaderAfter(s, chunks, handle).buffer| == MAX_RX_BUFFER
  }

  ghost predicate CanStall<S>(s: S, ms: seq<Message>, handle: (S, Message) -> (S, bool)) {
    exists chunks: seq<seq<Byte>>, unread: seq<Byte> :: StallsOn(s, ms, chunks, unread, handle)
  }

  predicate Oversized(m: Message) {
    FrameSize(m) > MAX_RX_BUFFER
  }

  /** No frame larger than the buffer is ever delivered, to any handler. */
  lemma {:induction false} DeliveredFitsBuffer<S>(s: S, chunks: seq<seq<Byte>>, handle: (S, Message) -> (S, bool))
    requires WithinRoom(s, chunks, handle)
    ensures var r := ReaderAfter(s, chunks, handle);
            |r.buffer| <= MAX_RX_BUFFER && forall i :: 0 <= i < |r.accepted| ==> !Oversized(r.accepted[i])
    decreases |chunks|
  {
    if chunks == [] {
    } else {
      var n := |chunks| - 1;
      var q := ReaderAfter(s, chunks[..n], handle);
      DeliveredFitsBuffer(s, chunks[..n], handle);
      var o := Process(q.buffer + chunks[n], q.state, handle);
      ProcessSplitsBuffer(q.buffer + chunks[n], q.state, handle);
      FramesAreShorter(o.accepted);
    }
  }

  lemma {:induction false} FramesAreShorter(ms: seq<Message>)
    ensures forall i :: 0 <= i < |ms| ==> FrameSize(ms[i]) <= |EncodeAll(ms)|
  {
    if ms == [] {
    } else {
      FramesAreShorter(ms[1..]);
      assert forall i :: 1 <= i < |ms| ==> ms[i] == ms[1..][i - 1];
    }
  }

  // ---------- frames that fit never stall ----------

  lemma FittingFramesLeaveRoom<S>(s: S, ms: seq<Message>, chunks: seq<seq<Byte>>, unread: seq<Byte>,
                                  handle: (S, Message) -> (S, bool))
    requires forall t, m :: handle(t, m).1
    requires forall i :: 0 <= i < |ms| ==> !Oversized(ms[i])
    requires Flatten(chunks) + unread == EncodeAll(ms)
    ensures |ReaderAfter(s, chunks, handle).buffer| < MAX_RX_BUFFER
  {
    var r := ReaderAfter(s, chunks, handle);
    AcceptedExactlyOnce(s, chunks, handle);
    AcceptingReaderIsDrained(s, chunks, handle);
    LeftoverStopsInside(r.accepted, r.buffer, unread, ms);
    var ahead := ms[|r.accepted|..];
    if ahead != [] {
      assert ahead[0] == ms[|r.accepted|];
    }
  }

  // ---------- an oversized frame has a chunking that stalls ----------

  /** One read for each frame. */
  function FrameByFrame(ms: seq<Message>): seq<seq<Byte>> {
    if ms == [] then [] else FrameByFrame(ms[..|ms| - 1]) + [Encode(ms[|ms| - 1])]
  }

  lemma OneMoreRead<S>(s: S, chunks: seq<seq<Byte>>, chunk: seq<Byte>, handle: (S, Message) -> (S, bool))
    requires WithinRoom(s, chunks, handle)
    requires |ReaderAfter(s, chunks, handle).buffer| + |chunk| <= MAX_RX_BUFFER
    ensures WithinRoom(s, chunks + [chunk], handle)
    ensures Flatten(chunks + [chunk]) == Flatten(chunks) + chunk
  {
    assert (chunks + [chunk])[..|chunks|] == chunks;
  }

  /** An accepting reader of whole frames and an incomplete rest is left with the rest. */
  lemma BufferIsTheRest<S>(s: S, chunks: seq<seq<Byte>>, ms: seq<Message>, rest: seq<Byte>,
                           handle: (S, Message) -> (S, bool))
    requires forall t, m :: handle(t, m).1
    requires Flatten(chunks) == EncodeAll(ms) + rest && FrontOf(rest) == Incomplete
    ensures ReaderAfter(s, chunks, handle).buffer == rest
  {
    ChunkingIndependence(s, chunks, handle);
    ParseInvertsEncode(ms, rest);
  }

  lemma {:induction false} FrameByFrameDelivers<S>(s: S, ms: seq<Message>, handle: (S, Message) -> (S, bool))
    requires forall t, m :: handle(t, m).1
    requires forall i :: 0 <= i < |ms| ==> !Oversized(ms[i])
    ensures Flatten(FrameByFrame(ms)) == EncodeAll(ms)
    ensures WithinRoom(s, FrameByFrame(ms), handle)
    ensures ReaderAfter(s, FrameByFrame(ms), handle).buffer == []
    decreases |ms|
  {
    if ms == [] {
    } else {
      var n := |ms| - 1;
      FrameByFrameDelivers(s, ms[..n], handle);
      OneMoreRead(s, FrameByFrame(ms[..n]), Encode(ms[n]), handle);
      EncodeAllSnoc(ms[..n], ms[n]);
      assert ms[..n] + [ms[n]] == ms;
      assert EncodeAll(ms) + [] == EncodeAll(ms);
      BufferIsTheRest(s, FrameByFrame(ms), ms, [], handle);
    }
  }

  lemma OversizedFrameStalls<S>(s: S, a: seq<Message>, m: Message, b: seq<Message>,
                                handle: (S, Message) -> (S, bool))
    requires forall t, n :: handle(t, n).1
    requires Oversized(m) && forall i :: 0 <= i < |a| ==> !Oversized(a[i])
    ensures CanStall(s, a + [m] + b, handle)
  {
    var full, cut := Encode(m)[..MAX_RX_BUFFER], Encode(m)[MAX_RX_BUFFER..];
    assert Encode(m) == full + cut;
    StallingReads(s, a, m, full, cut, handle);
    EncodeAround(a, m, b, full, cut);
    assert StallsOn(s, a + [m] + b, FrameByFrame(a) + [full], cut + EncodeAll(b), handle);
  }

  /** Whole frames, and then the first 100,000 bytes of one that is larger. */
  lemma StallingReads<S>(s: S, a: seq<Message>, m: Message, full: seq<Byte>, cut: seq<Byte>,
                         handle: (S, Message) -> (S, bool))
    requires forall t, n :: handle(t, n).1
    requires Encode(m) == full + cut && |full| == MAX_RX_BUFFER && cut != []
    requires forall i :: 0 <= i < |a| ==> !Oversized(a[i])
    ensures var chunks := FrameByFrame(a) + [full];
            && WithinRoom(s, chunks, handle)
            && Flatten(chunks) == EncodeAll(a) + full
            && ReaderAfter(s, chunks, handle).buffer == full
  {
    FrameByFrameDelivers(s, a, handle);
    OneMoreRead(s, FrameByFrame(a), full, handle);
    StrictPrefixIsIncomplete(full, m);
    BufferIsTheRest(s, FrameByFrame(a) + [full], a, full, handle);
  }

  lemma EncodeAround(a: seq<Message>, m: Message, b: seq<Message>, full: seq<Byte>, cut: seq<Byte>)
    requires Encode(m) == full + cut
    ensures EncodeAll(a + [m] + b) == EncodeAll(a) + full + (cut + EncodeAll(b))
  {
    EncodeAllAppend(a + [m], b);
    EncodeAllSnoc(a, m);
    CutInside(EncodeAll(a), full, cut, EncodeAll(b));
  }

  lemma CutInside(before: seq<Byte>, full: seq<Byte>, cut: seq<Byte>, after: seq<Byte>)
    ensures before + full + (cut + after) == before + (full + cut) + after
  {
  }

  /** The first oversized message, or the length if there is none. */
  function FirstOversized(ms: seq<Message>): (k: nat)
    ensures k <= |ms|
    ensures forall i :: 0 <= i < k ==> !Oversized(ms[i])
    ensures k < |ms| ==> Oversized(ms[k])
  {
    if ms == [] || Oversized(ms[0]) then 0
    else
      var k := 1 + FirstOversized(ms[1..]);
      assert forall i :: 1 <= i < k ==> ms[i] == ms[1..][i - 1];
      k
  }

  /**
   With a handler that accepts, reads of a stream of frames can leave the buffer full for good if
   and only if some frame is larger than the buffer.
   */
  lemma StallIffOversized<S>(s: S, ms: seq<Message>, handle: (S, Message) -> (S, bool))
    requires forall t, m :: handle(t, m).1
    ensures CanStall(s, ms, handle) <==> exists i :: 0 <= i < |ms| && Oversized(ms[i])
  {
    var k := FirstOversized(ms);
    if k < |ms| {
      assert ms == ms[..k] + [ms[k]] + ms[k + 1..];
      OversizedFrameStalls(s, ms[..k], ms[k], ms[k + 1..], handle);
    } else if CanStall(s, ms, handle) {
      var chunks: seq<seq<Byte>>, unread: seq<Byte> :| StallsOn(s, ms, chunks, unread, handle);
      FittingFramesLeaveRoom(s, ms, chunks, unread, handle);
    }
  }
}
