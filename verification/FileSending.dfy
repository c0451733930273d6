/**
 Sending a file through a ring: the read-and-queue loop that server and client share, as a
 function of the file contents, the ring and the results of `read()`, and what any number of
 calls to it, with flushes in between, puts on the queue.
 */
module FileSending {
  import opened Frames
  import opened TxRing

  const BEGIN_MARK: Message := RawMessage(FILE_DATA_BEGIN, [])
  const END_MARK: Message := RawMessage(FILE_DATA_END, [])

  function Chunk(data: seq<Byte>): (m: Message)
    requires |data| <= MAX_MESSAGE_DATA
  {
    RawMessage(FILE_DATA, data)
  }

  predicate IsChunk(m: Message) {
    m.kind == FILE_DATA && 1 <= |m.data| <= MAX_MESSAGE_DATA
  }

  /** The file bytes in `ms` up to the first end mark: what a receiver that stops there can write. */
  function Delivered(ms: seq<Message>): seq<Byte> {
    if ms == [] || ms[0].kind == FILE_DATA_END then []
    else (if ms[0].kind == FILE_DATA then ms[0].data else []) + Delivered(ms[1..])
  }

  function EndMarks(ms: seq<Message>): nat {
    if ms == [] then 0 else (if ms[0].kind == FILE_DATA_END then 1 else 0) + EndMarks(ms[1..])
  }

  lemma {:induction false} DeliveredAppend(a: seq<Message>, b: seq<Message>)
    ensures EndMarks(a + b) == EndMarks(a) + EndMarks(b)
    ensures Delivered(a + b) == if EndMarks(a) > 0 then Delivered(a) else Delivered(a) + Delivered(b)
  {
    if a == [] {
      assert a + b == b;
    } else {
      assert (a + b)[1..] == a[1..] + b;
      DeliveredAppend(a[1..], b);
    }
  }

  lemma DeliveredOne(m: Message)
    ensures EndMarks([m]) == if m.kind == FILE_DATA_END then 1 else 0
    ensures Delivered([m]) == if m.kind == FILE_DATA then m.data else []
  {
    assert [m][1..] == [];
  }

  // ---------- one pass of the loop ----------

  /** `read()` on a regular file: an error if negative, else between one byte and what was asked for. */
  function ReadCount(result: int, left: nat): (n: int)
    ensures -1 <= n <= left && n <= MAX_MESSAGE_DATA
    ensures n == 0 ==> left == 0
    ensures n == -1 <==> result < 0
    ensures result > 0 ==> n == result || n == left < result || n == MAX_MESSAGE_DATA < result
  {
    var most := if left < MAX_MESSAGE_DATA then left else MAX_MESSAGE_DATA;
    if result < 0 then -1
    else if result >= most then most
    else if result == 0 then 1
    else result
  }

  /** Finished: the end mark was queued.  Paused: the queue is saturated.  Aborted: the file is closed unsent. */
  datatype Exit = Finished | Paused | Aborted

  datatype Sent = Sent(exit: Exit, pos: nat, tx: Tx, msgs: seq<Message>)

  /** One iteration: it leaves the loop having queued `msgs`, or it queued one chunk and goes on. */
  datatype Iteration = Leave(exit: Exit, pos: nat, tx: Tx, msgs: seq<Message>) | Continue(chunk: Message, tx: Tx)

  /** `result` is what `read()` returns; `left` are the file's bytes from the current position. */
  function Iterate(left: seq<Byte>, pos: nat, tx: Tx, result: int): (it: Iteration)
    requires tx.Valid()
    ensures it.tx.Valid()
    ensures it.Leave? ==> pos <= it.pos <= pos + |left|
    ensures it.Leave? && it.exit.Finished? ==> left == []
    ensures it.Leave? && it.exit.Paused? ==> it.tx.Saturated() && it.pos > pos
    ensures it.Continue? ==> IsChunk(it.chunk) && it.chunk.data <= left && !it.tx.Saturated()
  {
    var n := ReadCount(result, |left|);
    if n < 0 then Leave(Aborted, pos, tx, [])
    else if n == 0 then
      var w := Write(tx, Encode(END_MARK));
      if w.ok then Leave(Finished, pos, w.tx, [END_MARK]) else Leave(Aborted, pos, tx, [])
    else
      var m := Chunk(left[..n]);
      var w := Write(tx, Encode(m));
      if !w.ok then Leave(Aborted, pos, tx, [])
      else if w.tx.Saturated() then Leave(Paused, pos + n, w.tx, [m])
      else Continue(m, w.tx)
  }

  /**
   `readAt(p)` is what `read()` returns at file position `p`.  The loop finishes only at the end
   of the file, and pauses only because the queue is saturated.
   */
  function SendLoop(src: seq<Byte>, pos: nat, tx: Tx, readAt: nat -> int): (r: Sent)
    requires tx.Valid() && pos <= |src|
    ensures r.tx.Valid() && pos <= r.pos <= |src|
    ensures r.exit.Finished? ==> r.pos == |src|
    ensures r.exit.Paused? ==> r.tx.Saturated() && r.pos > pos
    decreases |src| - pos
  {
    match Iterate(src[pos..], pos, tx, readAt(pos))
    case Leave(exit, pos', tx', msgs) => Sent(exit, pos', tx', msgs)
    case Continue(m, tx') =>
      var r := SendLoop(src, pos + |m.data|, tx', readAt);
      Sent(r.exit, r.pos, r.tx, [m] + r.msgs)
  }

  /** The loop, unrolled once. */
  lemma SendLoopUnrolls(src: seq<Byte>, pos: nat, tx: Tx, readAt: nat -> int, it: Iteration, next: nat)
    requires tx.Valid() && pos <= |src| && it == Iterate(src[pos..], pos, tx, readAt(pos))
    requires it.Continue? ==> next == pos + |it.chunk.data|
    ensures SendLoop(src, pos, tx, readAt) ==
            if it.Leave? then Sent(it.exit, it.pos, it.tx, it.msgs)
            else
              var rest := SendLoop(src, next, it.tx, readAt);
              Sent(rest.exit, rest.pos, rest.tx, [it.chunk] + rest.msgs)
  {
  }

  /** A recogniser for chunks of 1 to 4096 bytes, carrying `payload`, and at most one end mark, last. */
  datatype Body = NotABody | Body(payload: seq<Byte>, ended: bool)

  function BodyOf(ms: seq<Message>): Body {
    if ms == [] then Body([], false)
    else if ms == [END_MARK] then Body([], true)
    else
      match BodyOf(ms[1..])
      case Body(payload, ended) => if IsChunk(ms[0]) then Body(ms[0].data + payload, ended) else NotABody
      case NotABody => NotABody
  }

  /**
   What one pass queues: chunks of 1 to 4096 bytes that continue the file from `pos`, then an
   end mark exactly if it finished.
   */
  lemma {:induction false} SendLoopTrace(src: seq<Byte>, pos: nat, tx: Tx, readAt: nat -> int)
    requires tx.Valid() && pos <= |src|
    ensures var r := SendLoop(src, pos, tx, readAt);
            BodyOf(r.msgs) == Body(src[pos..r.pos], r.exit.Finished?)
    decreases |src| - pos
  {
    var it := Iterate(src[pos..], pos, tx, readAt(pos));
    if it.Continue? {
      var next := pos + |it.chunk.data|;
      SendLoopTrace(src, next, it.tx, readAt);
      ContinueTrace(src, pos, it.chunk, SendLoop(src, next, it.tx, readAt));
    } else {
      LeaveTrace(src, pos, tx, readAt(pos));
    }
  }

  lemma ContinueTrace(src: seq<Byte>, pos: nat, m: Message, rest: Sent)
    requires pos <= |src| && IsChunk(m) && m.data <= src[pos..]
    requires pos + |m.data| <= rest.pos <= |src|
    requires BodyOf(rest.msgs) == Body(src[pos + |m.data|..rest.pos], rest.exit.Finished?)
    ensures BodyOf([m] + rest.msgs) == Body(src[pos..rest.pos], rest.exit.Finished?)
  {
    var ms := [m] + rest.msgs;
    assert ms[0] == m && ms[1..] == rest.msgs && ms != [END_MARK];
    assert m.data == src[pos..pos + |m.data|];
    assert src[pos..rest.pos] == m.data + src[pos + |m.data|..rest.pos];
  }

  lemma LeaveTrace(src: seq<Byte>, pos: nat, tx: Tx, result: int)
    requires tx.Valid() && pos <= |src| && Iterate(src[pos..], pos, tx, result).Leave?
    ensures var it := Iterate(src[pos..], pos, tx, result);
            BodyOf(it.msgs) == Body(src[pos..it.pos], it.exit.Finished?)
  {
    var it := Iterate(src[pos..], pos, tx, result);
    assert src[pos..pos] == [];
    if it.exit.Paused? {
      var m := it.msgs[0];
      assert it.msgs == [m] && [m][1..] == [];
      assert m.data + [] == src[pos..][..it.pos - pos] == src[pos..it.pos];
    }
  }

  lemma {:induction false} BodyShape(ms: seq<Message>, payload: seq<Byte>, ended: bool)
    requires BodyOf(ms) == Body(payload, ended)
    ensures ended ==> ms != [] && ms[|ms| - 1] == END_MARK
    ensures forall i :: 0 <= i < |ms| && (ended ==> i < |ms| - 1) ==> IsChunk(ms[i])
    ensures Delivered(ms) == payload
    ensures EndMarks(ms) == if ended then 1 else 0
    decreases |ms|
  {
    if ms == [] || ms == [END_MARK] {
    } else {
      BodyShape(ms[1..], payload[|ms[0].data|..], ended);
      assert forall i :: 1 <= i < |ms| ==> ms[i] == ms[1..][i - 1];
    }
  }

  // ---------- how a pass ends ----------

  /** The frame the loop tries to queue at a position: the next chunk, or the end mark. */
  function NextFrame(src: seq<Byte>, pos: nat, result: int): Message
    requires pos <= |src| && result >= 0
  {
    if pos == |src| then END_MARK else Chunk(src[pos..][..ReadCount(result, |src| - pos)])
  }

  /** A pass stops at `pos` with this ring because `read()` fails there or the next frame does not fit. */
  predicate StopsAt(src: seq<Byte>, pos: nat, tx: Tx, readAt: nat -> int)
    requires tx.Valid() && pos <= |src|
  {
    readAt(pos) < 0 || FrameSize(NextFrame(src, pos, readAt(pos))) > tx.Room()
  }

  lemma IterationEnds(src: seq<Byte>, pos: nat, tx: Tx, readAt: nat -> int)
    requires tx.Valid() && pos <= |src|
    ensures var it := Iterate(src[pos..], pos, tx, readAt(pos));
            && (it.Leave? && it.exit.Aborted? ==> it.pos == pos && it.tx == tx && StopsAt(src, pos, tx, readAt))
            && (it.Leave? && it.exit.Finished? ==> pos == |src| == it.pos)
  {
    if readAt(pos) >= 0 {
      ContiguousSpaceDecides(tx, Encode(NextFrame(src, pos, readAt(pos))));
    }
  }

  /**
   A pass pauses only on a saturated queue and ahead of where it began, finishes only at the end of the
   file, and gives up exactly where a read fails or a frame is refused.
   */
  lemma {:induction false} SendLoopEnds(src: seq<Byte>, pos: nat, tx: Tx, readAt: nat -> int)
    requires tx.Valid() && pos <= |src|
    ensures var r := SendLoop(src, pos, tx, readAt);
            && (r.exit.Paused? ==> r.tx.Saturated() && r.pos > pos)
            && (r.exit.Finished? ==> r.pos == |src|)
            && (r.exit.Aborted? ==> StopsAt(src, r.pos, r.tx, readAt))
    decreases |src| - pos
  {
    var it := Iterate(src[pos..], pos, tx, readAt(pos));
    IterationEnds(src, pos, tx, readAt);
    if it.Leave? {
      SendLoopUnrolls(src, pos, tx, readAt, it, pos);
    } else {
      var next := pos + |it.chunk.data|;
      SendLoopUnrolls(src, pos, tx, readAt, it, next);
      SendLoopEnds(src, next, it.tx, readAt);
    }
  }

  /**
   The saturation rule keeps the ring away from its ambiguous full state: from at most 500,012
   pending bytes no write of the pass fills the ring exactly, and at most 504,120 are pending after it.
   */
  lemma {:induction false} SendLoopNeverFills(src: seq<Byte>, pos: nat, tx: Tx, readAt: nat -> int)
    requires tx.Valid() && pos <= |src|
    requires |tx.pending| <= MAX_TX_BUFFER / 2 + HEADER_SIZE
    ensures var r := SendLoop(src, pos, tx, readAt);
            && r.tx.pending == tx.pending + EncodeAll(r.msgs)
            && |r.tx.pending| <= 504_120
    decreases |src| - pos
  {
    IterateNeverFills(src[pos..], pos, tx, readAt(pos));
    var it := Iterate(src[pos..], pos, tx, readAt(pos));
    if it.Leave? {
    } else {
      var next := pos + |it.chunk.data|;
      SendLoopNeverFills(src, next, it.tx, readAt);
      AppendStep(tx.pending, it.chunk, SendLoop(src, next, it.tx, readAt).msgs);
    }
  }

  lemma IterateNeverFills(left: seq<Byte>, pos: nat, tx: Tx, result: int)
    requires tx.Valid() && |tx.pending| <= MAX_TX_BUFFER / 2 + HEADER_SIZE
    ensures var it := Iterate(left, pos, tx, result);
            && (it.Leave? ==> it.tx.pending == tx.pending + EncodeAll(it.msgs) && |it.tx.pending| <= 504_120)
            && (it.Continue? ==> it.tx.pending == tx.pending + Encode(it.chunk))
  {
    var it := Iterate(left, pos, tx, result);
    assert tx.pending + [] == tx.pending;
    if it.Leave? && it.msgs != [] {
      WriteOneFrame(tx, it.msgs[0]);
    }
  }

  lemma AppendStep(p: seq<Byte>, m: Message, ms: seq<Message>)
    ensures (p + Encode(m)) + EncodeAll(ms) == p + EncodeAll([m] + ms)
  {
    EncodeAllCons(m, ms);
    Regroup(p, Encode(m), EncodeAll(ms));
  }

  lemma WriteOneFrame(tx: Tx, m: Message)
    requires tx.Valid() && |tx.pending| <= MAX_TX_BUFFER / 2 + HEADER_SIZE
    requires Sendable(m) && Write(tx, Encode(m)).ok
    ensures var t := Write(tx, Encode(m)).tx;
            t.pending == tx.pending + EncodeAll([m]) == tx.pending + Encode(m) && |t.pending| <= 504_120
  {
    EncodeAllCons(m, []);
    assert [m] + [] == [m];
  }

  // ---------- calls ----------

  /** A sending side between calls; `log` lists every message its queue accepted. */
  datatype Sender = Sender(open: bool, begun: bool, pos: nat, tx: Tx, log: seq<Message>)

  predicate ValidSender(s: Sender, src: seq<Byte>) {
    s.tx.Valid() && s.pos <= |src|
  }

  /** The server queues the begin mark on the first call only, the client on every call. */
  function Call(s: Sender, src: seq<Byte>, beginEveryCall: bool, readAt: nat -> int): (s': Sender)
    requires ValidSender(s, src)
    ensures ValidSender(s', src)
  {
    if !s.open then s
    else if s.begun && !beginEveryCall then SendChunks(s, src, readAt)
    else
      var w := Write(s.tx, Encode(BEGIN_MARK));
      if w.ok then SendChunks(s.(begun := true, tx := w.tx, log := s.log + [BEGIN_MARK]), src, readAt) else s
  }

  function SendChunks(s: Sender, src: seq<Byte>, readAt: nat -> int): (s': Sender)
    requires ValidSender(s, src)
    ensures ValidSender(s', src)
  {
    var r := SendLoop(src, s.pos, s.tx, readAt);
    s.(open := r.exit.Paused?, pos := r.pos, tx := r.tx, log := s.log + r.msgs)
  }

  predicate NeedsBegin(s: Sender, beginEveryCall: bool) {
    !s.begun || beginEveryCall
  }

  function BeginOf(s: Sender, beginEveryCall: bool): seq<Message> {
    if NeedsBegin(s, beginEveryCall) then [BEGIN_MARK] else []
  }

  /**
   What a call of either side does with an open file.  If it needs a begin mark and there is no room
   for one it does nothing.  Otherwise it queues the mark, then chunks that carry the file from the
   old position to the new one, then an end mark exactly if it has come to the end with room for
   one.  It leaves the file open only on a saturated queue and with a larger position; and it closes
   it without an end mark only where a read failed or a frame was refused.
   */
  lemma CallOutcome(s: Sender, src: seq<Byte>, beginEveryCall: bool, readAt: nat -> int)
    requires ValidSender(s, src) && s.open
    ensures var s' := Call(s, src, beginEveryCall, readAt);
            var begin := BeginOf(s, beginEveryCall);
            if NeedsBegin(s, beginEveryCall) && HEADER_SIZE > s.tx.Room() then s' == s
            else
              && s'.begun && s.log + begin <= s'.log && s.pos <= s'.pos <= |src|
              && var body := BodyOf(s'.log[|s.log + begin|..]);
                 && body.Body? && body.payload == src[s.pos..s'.pos]
                 && (s'.open ==> s'.tx.Saturated() && s'.pos > s.pos && !body.ended)
                 && (body.ended ==> !s'.open && s'.pos == |src|)
                 && (!s'.open && !body.ended ==> StopsAt(src, s'.pos, s'.tx, readAt))
  {
    ContiguousSpaceDecides(s.tx, Encode(BEGIN_MARK));
    if NeedsBegin(s, beginEveryCall) {
      var w := Write(s.tx, Encode(BEGIN_MARK));
      if w.ok {
        ChunksOutcome(s.(begun := true, tx := w.tx, log := s.log + [BEGIN_MARK]), src, readAt);
      }
    } else {
      ChunksOutcome(s, src, readAt);
      assert s.log + [] == s.log;
    }
  }

  lemma ChunksOutcome(s: Sender, src: seq<Byte>, readAt: nat -> int)
    requires ValidSender(s, src)
    ensures var s' := SendChunks(s, src, readAt);
            && s'.begun == s.begun && s.log <= s'.log && s.pos <= s'.pos <= |src|
            && var body := BodyOf(s'.log[|s.log|..]);
               && body.Body? && body.payload == src[s.pos..s'.pos]
               && (s'.open ==> s'.tx.Saturated() && s'.pos > s.pos && !body.ended)
               && (body.ended ==> !s'.open && s'.pos == |src|)
               && (!s'.open && !body.ended ==> StopsAt(src, s'.pos, s'.tx, readAt))
  {
    var r := SendLoop(src, s.pos, s.tx, readAt);
    SendLoopTrace(src, s.pos, s.tx, readAt);
    SendLoopEnds(src, s.pos, s.tx, readAt);
    assert (s.log + r.msgs)[|s.log|..] == r.msgs;
  }

  lemma EndMarksAfter(before: seq<Message>, msgs: seq<Message>, payload: seq<Byte>, ended: bool)
    requires BodyOf(msgs) == Body(payload, ended)
    ensures EndMarks(before + msgs) == EndMarks(before) + (if ended then 1 else 0)
    ensures ended ==> before + msgs != [] && (before + msgs)[|before + msgs| - 1] == END_MARK
  {
    BodyShape(msgs, payload, ended);
    DeliveredAppend(before, msgs);
  }

  lemma BodyEndMarks(before: seq<Message>, log': seq<Message>)
    requires before <= log' && BodyOf(log'[|before|..]).Body?
    ensures var ended := BodyOf(log'[|before|..]).ended;
            && EndMarks(log') == EndMarks(before) + (if ended then 1 else 0)
            && (ended ==> log' != [] && log'[|log'| - 1] == END_MARK)
  {
    var msgs := log'[|before|..];
    assert log' == before + msgs;
    EndMarksAfter(before, msgs, BodyOf(msgs).payload, BodyOf(msgs).ended);
  }

  lemma BeginIsNoEnd(log: seq<Message>, begin: seq<Message>)
    requires begin == [] || begin == [BEGIN_MARK]
    ensures EndMarks(log + begin) == EndMarks(log)
  {
    DeliveredOne(BEGIN_MARK);
    DeliveredAppend(log, begin);
  }

  /**
   A call that gets past the begin mark ends in one of three ways: it pauses, on a saturated queue and
   ahead of where it began; it finishes, with the whole file and one more end mark queued; or a read
   failed or a frame was refused, and no end mark is queued.
   */
  lemma CallEnds(s: Sender, src: seq<Byte>, beginEveryCall: bool, readAt: nat -> int)
    requires ValidSender(s, src) && s.open && (NeedsBegin(s, beginEveryCall) ==> HEADER_SIZE <= s.tx.Room())
    ensures var s' := Call(s, src, beginEveryCall, readAt);
            || (s'.open && s'.tx.Saturated() && s'.pos > s.pos && EndMarks(s'.log) == EndMarks(s.log))
            || (!s'.open && s'.pos == |src| && EndMarks(s'.log) == EndMarks(s.log) + 1
                && s'.log != [] && s'.log[|s'.log| - 1] == END_MARK)
            || (!s'.open && EndMarks(s'.log) == EndMarks(s.log) && StopsAt(src, s'.pos, s'.tx, readAt))
  {
    CallOutcome(s, src, beginEveryCall, readAt);
    var s' := Call(s, src, beginEveryCall, readAt);
    var before := s.log + BeginOf(s, beginEveryCall);
    BeginIsNoEnd(s.log, BeginOf(s, beginEveryCall));
    BodyEndMarks(before, s'.log);
  }

  /** A server call that gets past the begin mark is one pass of the loop. */
  lemma CallIsChunks(s: Sender, begun: Sender, src: seq<Byte>, readAt: nat -> int)
    requires ValidSender(s, src) && s.open
    requires if s.begun then begun == s
             else Write(s.tx, Encode(BEGIN_MARK)).ok
                  && begun == s.(begun := true, tx := Write(s.tx, Encode(BEGIN_MARK)).tx, log := s.log + [BEGIN_MARK])
    ensures ValidSender(begun, src)
    ensures Call(s, src, false, readAt) == SendChunks(begun, src, readAt)
  {
  }

  /** What a server call adds to the log carries the file from the old position to the new one. */
  lemma CallExtendsLog(s: Sender, src: seq<Byte>, readAt: nat -> int)
    requires ValidSender(s, src)
    ensures var s' := Call(s, src, false, readAt);
            s.log <= s'.log && s.pos <= s'.pos && Delivered(s'.log[|s.log|..]) == src[s.pos..s'.pos]
  {
    var w := Write(s.tx, Encode(BEGIN_MARK));
    if s.open && s.begun {
      ChunksExtendLog(s, [], src, readAt);
    } else if s.open && w.ok {
      ChunksExtendLog(s.(begun := true, tx := w.tx), [BEGIN_MARK], src, readAt);
    } else {
      assert s.log[|s.log|..] == [] && src[s.pos..s.pos] == [];
    }
  }

  lemma ChunksExtendLog(s: Sender, begin: seq<Message>, src: seq<Byte>, readAt: nat -> int)
    requires ValidSender(s, src) && (begin == [] || begin == [BEGIN_MARK])
    ensures var s' := SendChunks(s.(log := s.log + begin), src, readAt);
            s.log <= s'.log && s.pos <= s'.pos && Delivered(s'.log[|s.log|..]) == src[s.pos..s'.pos]
    ensures s.log + [] == s.log
  {
    var r := SendLoop(src, s.pos, s.tx, readAt);
    SendLoopTrace(src, s.pos, s.tx, readAt);
    BodyShape(r.msgs, src[s.pos..r.pos], r.exit.Finished?);
    DeliveredOne(BEGIN_MARK);
    DeliveredAppend(begin, r.msgs);
    assert (s.log + begin + r.msgs)[|s.log|..] == begin + r.msgs;
  }

  /** The queue of `s'` is that of `s` with everything appended that was logged in between. */
  predicate Appended(s: Sender, s': Sender) {
    s.log <= s'.log && s'.tx.pending == s.tx.pending + EncodeAll(s'.log[|s.log|..])
  }

  /** Entered with an unsaturated queue, a call appends what it logs and leaves at most 504,120 bytes pending. */
  lemma CallNeverFills(s: Sender, src: seq<Byte>, beginEveryCall: bool, readAt: nat -> int)
    requires ValidSender(s, src) && !s.tx.Saturated()
    ensures var s' := Call(s, src, beginEveryCall, readAt);
            Appended(s, s') && |s'.tx.pending| <= 504_120
  {
    assert s.tx.pending + [] == s.tx.pending;
    if s.open {
      if s.begun && !beginEveryCall {
        ChunksNeverFill(s, src, readAt);
      } else {
        var w := Write(s.tx, Encode(BEGIN_MARK));
        if w.ok {
          var b := s.(begun := true, tx := w.tx, log := s.log + [BEGIN_MARK]);
          WriteOneFrame(s.tx, BEGIN_MARK);
          ChunksNeverFill(b, src, readAt);
          var s' := SendChunks(b, src, readAt);
          AppendStep(s.tx.pending, BEGIN_MARK, s'.log[|b.log|..]);
          assert s'.log[|s.log|..] == [BEGIN_MARK] + s'.log[|b.log|..];
        }
      }
    }
  }

  lemma ChunksNeverFill(s: Sender, src: seq<Byte>, readAt: nat -> int)
    requires ValidSender(s, src) && |s.tx.pending| <= MAX_TX_BUFFER / 2 + HEADER_SIZE
    ensures var s' := SendChunks(s, src, readAt);
            Appended(s, s') && |s'.tx.pending| <= 504_120
  {
    SendLoopNeverFills(src, s.pos, s.tx, readAt);
    var msgs := SendLoop(src, s.pos, s.tx, readAt).msgs;
    assert (s.log + msgs)[|s.log|..] == msgs;
  }

  datatype SendAction = DoCall(readAt: nat -> int) | DoFlush(result: int)

  function SendRun(s: Sender, src: seq<Byte>, beginEveryCall: bool, actions: seq<SendAction>): (s': Sender)
    requires ValidSender(s, src)
    ensures ValidSender(s', src)
    decreases |actions|
  {
    if actions == [] then s
    else
      var n := |actions| - 1;
      var q := SendRun(s, src, beginEveryCall, actions[..n]);
      match actions[n]
      case DoCall(readAt) => Call(q, src, beginEveryCall, readAt)
      case DoFlush(result) => q.(tx := Flush(q.tx, result))
  }

  /**
   The language of a transfer.  Nothing, or a begin mark followed by chunks of 1 to 4096 bytes
   (for the client, with further begin marks among them) whose payload is the file up to `pos`,
   and then an end mark at most once, last, and only when `pos` is the end of the file.
   */
  predicate IsTransfer(log: seq<Message>, src: seq<Byte>, pos: nat, begun: bool, ended: bool, beginEveryCall: bool)
    requires pos <= |src|
  {
    && (!begun ==> log == [] && pos == 0 && !ended)
    && (begun ==> log != [] && log[0] == BEGIN_MARK)
    && (ended ==> |log| >= 2 && log[|log| - 1] == END_MARK && pos == |src|)
    && var stop := if ended then |log| - 1 else |log|;
       && (forall i :: 1 <= i < stop ==> IsChunk(log[i]) || (beginEveryCall && log[i] == BEGIN_MARK))
       && Delivered(log) == src[..pos]
       && EndMarks(log) == if ended then 1 else 0
  }

  /** While the file is open the transfer has not ended; the log always belongs to the language. */
  predicate TransferInvariant(s: Sender, src: seq<Byte>, beginEveryCall: bool) {
    && ValidSender(s, src)
    && IsTransfer(s.log, src, s.pos, s.begun, EndMarks(s.log) > 0, beginEveryCall)
    && (s.open ==> EndMarks(s.log) == 0)
  }

  lemma CallKeepsTransfer(s: Sender, src: seq<Byte>, beginEveryCall: bool, readAt: nat -> int)
    requires TransferInvariant(s, src, beginEveryCall)
    ensures TransferInvariant(Call(s, src, beginEveryCall, readAt), src, beginEveryCall)
  {
    if s.open {
      if s.begun && !beginEveryCall {
        LoopKeepsTransfer(s, src, beginEveryCall, readAt);
      } else {
        var w := Write(s.tx, Encode(BEGIN_MARK));
        if w.ok {
          DeliveredAppend(s.log, [BEGIN_MARK]);
          DeliveredOne(BEGIN_MARK);
          LoopKeepsTransfer(s.(begun := true, tx := w.tx, log := s.log + [BEGIN_MARK]), src, beginEveryCall, readAt);
        }
      }
    }
  }

  lemma LoopKeepsTransfer(s: Sender, src: seq<Byte>, beginEveryCall: bool, readAt: nat -> int)
    requires TransferInvariant(s, src, beginEveryCall) && s.open && s.begun
    ensures TransferInvariant(SendChunks(s, src, readAt), src, beginEveryCall)
  {
    var r := SendLoop(src, s.pos, s.tx, readAt);
    SendLoopTrace(src, s.pos, s.tx, readAt);
    TransferAppend(s.log, src, s.pos, beginEveryCall, r.msgs, r.pos, r.exit.Finished?);
  }

  lemma TransferAppend(log: seq<Message>, src: seq<Byte>, pos: nat, beginEveryCall: bool,
                       ms: seq<Message>, pos': nat, ended: bool)
    requires pos <= pos' <= |src|
    requires IsTransfer(log, src, pos, true, false, beginEveryCall)
    requires BodyOf(ms) == Body(src[pos..pos'], ended) && (ended ==> pos' == |src|)
    ensures IsTransfer(log + ms, src, pos', true, ended, beginEveryCall)
  {
    DeliveredAppend(log, ms);
    BodyShape(ms, src[pos..pos'], ended);
    assert src[..pos] + src[pos..pos'] == src[..pos'];
  }

  /** Over any number of calls, pauses and flushes, the queue has accepted a word of the transfer language. */
  lemma {:induction false} TransferLanguage(tx: Tx, src: seq<Byte>, beginEveryCall: bool, actions: seq<SendAction>)
    requires tx.Valid()
    ensures TransferInvariant(SendRun(Sender(true, false, 0, tx, []), src, beginEveryCall, actions),
                              src, beginEveryCall)
    decreases |actions|
  {
    if actions == [] {
    } else {
      var n := |actions| - 1;
      var s := Sender(true, false, 0, tx, []);
      TransferLanguage(tx, src, beginEveryCall, actions[..n]);
      var q := SendRun(s, src, beginEveryCall, actions[..n]);
      if actions[n].DoCall? {
        CallKeepsTransfer(q, src, beginEveryCall, actions[n].readAt);
      }
    }
  }
}
