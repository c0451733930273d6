/**
 How large a file one connection can carry.  The end cursor of the ring wraps only when a
 frame ends exactly on the last index, and with reads that return all they were asked for no
 data frame of a download but the last can do that.  So whether the end mark is ever queued is
 decided by the file size alone, whatever the pauses and flushes.
 */
module TransferCapacity {
  import opened Frames
  import opened TxRing
  import opened FileSending

  /** The largest response frame: a header and a 300-byte text. */
  const MAX_RESPONSE_FRAME := 312

  /** The smallest one that grants a request: a header, "OK ", two one-byte paths, a space and a terminator. */
  const MIN_GRANT_FRAME := 19

  /** Bytes on the wire for `n` file bytes in full chunks. */
  function FramedSize(n: nat): nat {
    n + HEADER_SIZE * ((n + MAX_MESSAGE_DATA - 1) / MAX_MESSAGE_DATA)
  }

  /** Ring bytes used once `pos` file bytes are queued behind `base` bytes and the begin mark. */
  function Used(base: nat, begun: bool, pos: nat): nat {
    if begun then base + HEADER_SIZE + FramedSize(pos) else base
  }

  /**
   What a caller can compute beforehand: the end mark still fits behind the data, or the data
   ends exactly on the last index, so that the cursor wraps.
   */
  predicate Completes(base: nat, size: nat) {
    var used := Used(base, true, size);
    used + HEADER_SIZE <= MAX_TX_BUFFER || used == MAX_TX_BUFFER
  }

  /** `read()` on a regular file returns as many bytes as asked for, or all that are left. */
  ghost predicate FullReads(readAt: nat -> int) {
    forall p :: readAt(p) >= MAX_MESSAGE_DATA
  }

  /** The ring has not wrapped: its cursors are `used` bytes into the array. */
  predicate Unwrapped(tx: Tx, used: nat) {
    && tx.Valid() && used <= MAX_TX_BUFFER
    && (tx.start + |tx.pending| == used || (used == MAX_TX_BUFFER && tx.start == 0 && tx.pending == []))
  }

  predicate OnChunkBoundary(pos: nat, size: nat) {
    pos <= size && (pos % MAX_MESSAGE_DATA == 0 || pos == size)
  }

  /** Full chunks never end on the last index of the array; only the last, shorter one can. */
  lemma NoChunkEndsTheArray(base: nat, pos: nat)
    requires base <= MAX_RESPONSE_FRAME && pos % MAX_MESSAGE_DATA == 0
    ensures Used(base, true, pos) != MAX_TX_BUFFER
  {
    var k := pos / MAX_MESSAGE_DATA;
    assert pos == MAX_MESSAGE_DATA * k;
    assert FramedSize(pos) == 4108 * k;
    assert k <= 243 ==> 4108 * k <= 998_244;
    assert k >= 244 ==> 4108 * k >= 1_002_352;
  }

  lemma NextChunk(base: nat, pos: nat, size: nat)
    requires OnChunkBoundary(pos, size) && pos < size
    ensures var n := if size - pos < MAX_MESSAGE_DATA then size - pos else MAX_MESSAGE_DATA;
            && OnChunkBoundary(pos + n, size)
            && Used(base, true, pos + n) == Used(base, true, pos) + HEADER_SIZE + n
            && Used(base, true, pos + n) <= Used(base, true, size)
  {
  }

  /** One pass with full reads ends in the one way the size allows, unless it only pauses. */
  lemma {:induction false} SendLoopCapacity(src: seq<Byte>, pos: nat, tx: Tx, readAt: nat -> int, base: nat)
    requires base <= MAX_RESPONSE_FRAME && FullReads(readAt) && OnChunkBoundary(pos, |src|)
    requires Unwrapped(tx, Used(base, true, pos)) && |tx.pending| <= MAX_TX_BUFFER / 2 + HEADER_SIZE
    ensures var r := SendLoop(src, pos, tx, readAt);
            && (r.exit.Paused? ==> OnChunkBoundary(r.pos, |src|) && Unwrapped(r.tx, Used(base, true, r.pos)))
            && (!r.exit.Paused? ==> (r.exit.Finished? <==> Completes(base, |src|)))
    decreases |src| - pos
  {
    IterationCapacity(src, pos, tx, readAt(pos), base);
    var it := Iterate(src[pos..], pos, tx, readAt(pos));
    if it.Leave? {
    } else {
      SendLoopUnrolls(src, pos, tx, readAt, it, pos + |it.chunk.data|);
      SendLoopCapacity(src, pos + |it.chunk.data|, it.tx, readAt, base);
    }
  }

  lemma IterationCapacity(src: seq<Byte>, pos: nat, tx: Tx, result: int, base: nat)
    requires base <= MAX_RESPONSE_FRAME && result >= MAX_MESSAGE_DATA && OnChunkBoundary(pos, |src|)
    requires Unwrapped(tx, Used(base, true, pos)) && |tx.pending| <= MAX_TX_BUFFER / 2 + HEADER_SIZE
    ensures var it := Iterate(src[pos..], pos, tx, result);
            var next := if it.Continue? then pos + |it.chunk.data| else it.pos;
            && (it.Continue? || it.exit.Paused? ==>
                  OnChunkBoundary(next, |src|) && Unwrapped(it.tx, Used(base, true, next)))
            && (it.Leave? && !it.exit.Paused? ==> (it.exit.Finished? <==> Completes(base, |src|)))
  {
    if pos < |src| {
      var n := ReadCount(result, |src[pos..]|);
      var m := Chunk(src[pos..][..n]);
      NextChunk(base, pos, |src|);
      NoChunkEndsTheArray(base, pos);
      FrameFits(tx, Used(base, true, pos), Encode(m));
    } else {
      FrameFits(tx, Used(base, true, pos), Encode(END_MARK));
    }
  }

  /** Behind `used` bytes a frame is accepted exactly if it stays inside the array. */
  lemma FrameFits(tx: Tx, used: nat, frame: seq<Byte>)
    requires Unwrapped(tx, used) && |frame| <= HEADER_SIZE + MAX_MESSAGE_DATA
    requires |tx.pending| <= MAX_TX_BUFFER / 2 + HEADER_SIZE
    ensures used < MAX_TX_BUFFER ==> (Write(tx, frame).ok <==> used + |frame| <= MAX_TX_BUFFER)
    ensures used < MAX_TX_BUFFER && Write(tx, frame).ok ==> Unwrapped(Write(tx, frame).tx, used + |frame|)
    ensures used == MAX_TX_BUFFER ==> Write(tx, frame).ok
  {
  }

  // ---------- runs ----------

  /** The event loop calls the sender only while the queue is unsaturated. */
  function GuardedRun(s: Sender, src: seq<Byte>, actions: seq<SendAction>): (s': Sender)
    requires ValidSender(s, src)
    ensures ValidSender(s', src)
    decreases |actions|
  {
    if actions == [] then s
    else
      var n := |actions| - 1;
      var q := GuardedRun(s, src, actions[..n]);
      match actions[n]
      case DoCall(readAt) => if q.tx.Saturated() then q else Call(q, src, false, readAt)
      case DoFlush(result) => q.(tx := Flush(q.tx, result))
  }

  ghost predicate CapacityInvariant(s: Sender, src: seq<Byte>, base: nat) {
    && ValidSender(s, src)
    && (s.open ==>
          && EndMarks(s.log) == 0
          && (!s.begun ==> s.pos == 0)
          && OnChunkBoundary(s.pos, |src|)
          && Unwrapped(s.tx, Used(base, s.begun, s.pos)))
    && (!s.open ==> (EndMarks(s.log) > 0 <==> Completes(base, |src|)))
  }

  lemma FlushKeepsUnwrapped(tx: Tx, used: nat, result: int)
    requires Unwrapped(tx, used)
    ensures Unwrapped(Flush(tx, result), used)
  {
    var n := Taken(tx, result);
    var t := tx.Advance(n);
    assert |t.pending| == |tx.pending| - n;
    assert t.End() == tx.End();
  }

  lemma CallKeepsCapacity(s: Sender, src: seq<Byte>, readAt: nat -> int, base: nat)
    requires base <= MAX_RESPONSE_FRAME && FullReads(readAt)
    requires CapacityInvariant(s, src, base) && !s.tx.Saturated()
    ensures CapacityInvariant(Call(s, src, false, readAt), src, base)
  {
    if s.open {
      if s.begun {
        ChunksKeepCapacity(s, src, readAt, base);
      } else {
        var w := Write(s.tx, Encode(BEGIN_MARK));
        DeliveredAppend(s.log, [BEGIN_MARK]);
        DeliveredOne(BEGIN_MARK);
        assert FramedSize(0) == 0;
        ChunksKeepCapacity(s.(begun := true, tx := w.tx, log := s.log + [BEGIN_MARK]), src, readAt, base);
      }
    }
  }

  lemma ChunksKeepCapacity(s: Sender, src: seq<Byte>, readAt: nat -> int, base: nat)
    requires base <= MAX_RESPONSE_FRAME && FullReads(readAt)
    requires CapacityInvariant(s, src, base) && s.open && s.begun
    requires |s.tx.pending| <= MAX_TX_BUFFER / 2 + HEADER_SIZE
    ensures CapacityInvariant(SendChunks(s, src, readAt), src, base)
  {
    var r := SendLoop(src, s.pos, s.tx, readAt);
    SendLoopCapacity(src, s.pos, s.tx, readAt, base);
    SendLoopTrace(src, s.pos, s.tx, readAt);
    BodyShape(r.msgs, src[s.pos..r.pos], r.exit.Finished?);
    DeliveredAppend(s.log, r.msgs);
  }

  lemma {:induction false} RunKeepsCapacity(tx: Tx, src: seq<Byte>, base: nat, actions: seq<SendAction>)
    requires base <= MAX_RESPONSE_FRAME && Unwrapped(tx, base)
    requires forall i :: 0 <= i < |actions| && actions[i].DoCall? ==> FullReads(actions[i].readAt)
    ensures CapacityInvariant(GuardedRun(Sender(true, false, 0, tx, []), src, actions), src, base)
    decreases |actions|
  {
    if actions == [] {
    } else {
      var n := |actions| - 1;
      RunKeepsCapacity(tx, src, base, actions[..n]);
      var q := GuardedRun(Sender(true, false, 0, tx, []), src, actions[..n]);
      match actions[n]
      case DoCall(readAt) =>
        if !q.tx.Saturated() {
          CallKeepsCapacity(q, src, readAt, base);
        }
      case DoFlush(result) =>
        if q.open {
          FlushKeepsUnwrapped(q.tx, Used(base, q.begun, q.pos), result);
        }
    }
  }

  /**
   Once the server has closed the file, the end mark has been queued if and only if the size
   satisfies `Completes`.  Resuming after saturation never helps a larger file.
   */
  lemma DownloadCompletesIff(tx: Tx, src: seq<Byte>, base: nat, actions: seq<SendAction>)
    requires base <= MAX_RESPONSE_FRAME && Unwrapped(tx, base)
    requires forall i :: 0 <= i < |actions| && actions[i].DoCall? ==> FullReads(actions[i].readAt)
    ensures var s := GuardedRun(Sender(true, false, 0, tx, []), src, actions);
            !s.open ==> (EndMarks(s.log) > 0 <==> Completes(base, |src|))
  {
    RunKeepsCapacity(tx, src, base, actions);
  }

  /**
   In bytes: no file above 997,041 is ever completed; none up to 996,736 is aborted behind the longest
   answer, none up to 996,737 behind one that leaves a byte of the response buffer free.  All are tight.
   */
  lemma CompletesBounds(base: nat, size: nat)
    requires MIN_GRANT_FRAME <= base <= MAX_RESPONSE_FRAME
    ensures size > 997_041 ==> !Completes(base, size)
    ensures size <= 996_736 ==> Completes(base, size)
    ensures base < MAX_RESPONSE_FRAME && size <= 996_737 ==> Completes(base, size)
    ensures Completes(MIN_GRANT_FRAME, 997_041)
    ensures !Completes(MAX_RESPONSE_FRAME, 996_737) && !Completes(MAX_RESPONSE_FRAME - 1, 996_738)
  {
    assert Used(MIN_GRANT_FRAME, true, 997_041) == MAX_TX_BUFFER;
  }
}
