/**
 One direction of a connection over whole runs: a sender's ring, the byte channel of the
 socket, and the peer's reassembler with any message handler.  A run is any sequence of
 actions, so it covers every interleaving of writes, partial flushes and partial reads.
 */
module Transport {
  import opened Frames
  import opened TxRing
  import opened Reassembly
  import opened ByteStreams

  /** `sent` lists the messages the ring accepted, `overruns` counts those that filled it exactly. */
  datatype Link<S> = Link(tx: Tx, wire: seq<Byte>, reader: Reader<S>,
                          sent: seq<Message>, flushed: nat, overruns: nat)

  /** The results of the system calls are any integers; what they can mean is bounded where they are used. */
  datatype Action = Send(msg: Message) | Flush(result: int) | Receive(result: int)

  function Fresh<S>(s: S): (l: Link<S>)
    ensures l.tx.Valid()
  {
    Link(Tx(0, []), [], Reader([], s, []), [], 0, 0)
  }

  function Step<S>(l: Link<S>, a: Action, handle: (S, Message) -> (S, bool)): (l': Link<S>)
    requires l.tx.Valid()
    ensures l'.tx.Valid()
  {
    match a
    case Send(m) =>
      var w := Write(l.tx, Encode(m));
      if !w.ok then l
      else l.(tx := w.tx, sent := l.sent + [m],
              overruns := if l.tx.ExactlyFilledBy(Encode(m)) then l.overruns + 1 else l.overruns)
    case Flush(result) =>
      var n := Taken(l.tx, result);
      l.(tx := TxRing.Flush(l.tx, result), wire := l.wire + l.tx.pending[..n], flushed := l.flushed + n)
    case Receive(result) =>
      var n := ReadSize(l.reader.buffer, l.wire, result);
      l.(wire := l.wire[n..], reader := ReadChunk(l.reader, l.wire[..n], handle))
  }

  function Run<S>(l: Link<S>, actions: seq<Action>, handle: (S, Message) -> (S, bool)): (l': Link<S>)
    requires l.tx.Valid()
    ensures l'.tx.Valid()
    decreases |actions|
  {
    if actions == [] then l
    else
      var n := |actions| - 1;
      Step(Run(l, actions[..n], handle), actions[n], handle)
  }

  /** Where the bytes of every accepted message are, front to back. */
  function InTransit<S>(l: Link<S>): seq<Byte> {
    l.reader.buffer + l.wire + l.tx.pending
  }

  ghost predicate Conserved<S>(l: Link<S>) {
    Stream(l.sent, l.reader.accepted, l.reader.buffer, l.wire, l.tx)
  }

  /** The ledger every step keeps: each exact fill loses exactly one ring of bytes, nothing else is lost. */
  ghost predicate Ledger<S>(l: Link<S>) {
    && |EncodeAll(l.sent)| == |EncodeAll(l.reader.accepted)| + |InTransit(l)| + MAX_TX_BUFFER * l.overruns
    && (l.overruns == 0 ==> Conserved(l))
  }

  lemma StepKeepsLedger<S>(l: Link<S>, a: Action, handle: (S, Message) -> (S, bool))
    requires l.tx.Valid() && Ledger(l)
    ensures Ledger(Step(l, a, handle))
  {
    match a
    case Send(m) => SendKeepsLedger(l, m, handle);
    case Flush(result) => FlushKeepsLedger(l, result, handle);
    case Receive(result) => ReceiveKeepsLedger(l, result, handle);
  }

  lemma SendKeepsLedger<S>(l: Link<S>, m: Message, handle: (S, Message) -> (S, bool))
    requires l.tx.Valid() && Ledger(l)
    ensures Ledger(Step(l, Send(m), handle))
  {
    EncodeAllSnoc(l.sent, m);
    Regroup(EncodeAll(l.reader.accepted), InTransit(l), Encode(m));
    Regroup(l.reader.buffer + l.wire, l.tx.pending, Encode(m));
  }

  lemma FlushKeepsLedger<S>(l: Link<S>, result: int, handle: (S, Message) -> (S, bool))
    requires l.tx.Valid() && Ledger(l)
    ensures Ledger(Step(l, Flush(result), handle))
  {
    assert InTransit(Step(l, Flush(result), handle)) == InTransit(l);
  }

  lemma ReceiveKeepsLedger<S>(l: Link<S>, result: int, handle: (S, Message) -> (S, bool))
    requires l.tx.Valid() && Ledger(l)
    ensures Ledger(Step(l, Receive(result), handle))
  {
    var n := ReadSize(l.reader.buffer, l.wire, result);
    ReadChunkSplits(l.reader, l.wire[..n], handle);
    var r := ReadChunk(l.reader, l.wire[..n], handle);
    MoveAcross(EncodeAll(l.reader.accepted), l.reader.buffer, l.wire, n, l.tx.pending,
               EncodeAll(r.accepted), r.buffer);
  }

  lemma {:induction false} RunKeepsLedger<S>(s: S, actions: seq<Action>, handle: (S, Message) -> (S, bool))
    ensures Ledger(Run(Fresh(s), actions, handle))
    decreases |actions|
  {
    if actions == [] {
    } else {
      var n := |actions| - 1;
      RunKeepsLedger(s, actions[..n], handle);
      StepKeepsLedger(Run(Fresh(s), actions[..n], handle), actions[n], handle);
    }
  }

  /**
   The transport is a reliable FIFO channel on exactly those runs in which no write fills the
   ring to its last byte: then, and only then, nothing of what was accepted is lost.
   */
  lemma ConservedIffNeverExactlyFull<S>(s: S, actions: seq<Action>, handle: (S, Message) -> (S, bool))
    ensures var l := Run(Fresh(s), actions, handle);
            Conserved(l) <==> l.overruns == 0
  {
    RunKeepsLedger(s, actions, handle);
  }

  /** Messages a sender can build whose frames add up to exactly one ring. */
  function Filler(payload: nat): (m: Message)
    requires payload <= MAX_MESSAGE_DATA
    ensures Sendable(m) && FrameSize(m) == HEADER_SIZE + payload
  {
    RawMessage(FILE_DATA, seq(payload, _ => 0))
  }

  function FillingRun(): seq<Action> {
    FullFrames(243) + [Send(Filler(1744))]
  }

  function FullFrames(n: nat): seq<Action> {
    if n == 0 then [] else FullFrames(n - 1) + [Send(Filler(MAX_MESSAGE_DATA))]
  }

  lemma RunNext<S>(l: Link<S>, actions: seq<Action>, a: Action, handle: (S, Message) -> (S, bool))
    requires l.tx.Valid()
    ensures Run(l, actions + [a], handle) == Step(Run(l, actions, handle), a, handle)
  {
    assert (actions + [a])[..|actions|] == actions;
  }

  lemma FullFrameFits(t: Tx, n: nat)
    requires 0 < n <= 243 && t.start == 0 && |t.pending| == 4108 * (n - 1)
    ensures t.Valid()
    ensures var w := Write(t, Encode(Filler(MAX_MESSAGE_DATA)));
            && w.ok && w.tx.start == 0 && |w.tx.pending| == 4108 * n
            && !t.ExactlyFilledBy(Encode(Filler(MAX_MESSAGE_DATA)))
  {
    assert 4108 * n <= 4108 * 243 == 998_244;
  }

  lemma {:induction false} FullFramesFill<S>(s: S, n: nat, handle: (S, Message) -> (S, bool))
    requires n <= 243
    ensures var l := Run(Fresh(s), FullFrames(n), handle);
            && l.tx.start == 0 && |l.tx.pending| == 4108 * n && |l.sent| == n
            && l == Fresh(s).(tx := l.tx, sent := l.sent)
    decreases n
  {
    if n == 0 {
    } else {
      FullFramesFill(s, n - 1, handle);
      FullFrameFits(Run(Fresh(s), FullFrames(n - 1), handle).tx, n);
      RunNext(Fresh(s), FullFrames(n - 1), Send(Filler(MAX_MESSAGE_DATA)), handle);
    }
  }

  /** 243 messages of 4096 bytes and one of 1744 fill the ring exactly: all 244 were accepted, all are lost. */
  lemma ExactFillIsReachable<S>(s: S, handle: (S, Message) -> (S, bool))
    ensures var l := Run(Fresh(s), FillingRun(), handle);
            && |l.sent| == 244 && l.overruns == 1 && !Conserved(l)
            && l.tx.pending == [] && l.wire == [] && l.reader == Reader([], s, [])
  {
    FullFramesFill(s, 243, handle);
    assert FillingRun()[..|FillingRun()| - 1] == FullFrames(243);
    RunKeepsLedger(s, FillingRun(), handle);
  }

  /** The messages delivered are a prefix of those sent: same type, length, payload and order. */
  lemma DeliveredIsPrefixOfSent<S>(s: S, actions: seq<Action>, handle: (S, Message) -> (S, bool))
    requires Run(Fresh(s), actions, handle).overruns == 0
    ensures var l := Run(Fresh(s), actions, handle);
            l.reader.accepted <= l.sent
  {
    var l := Run(Fresh(s), actions, handle);
    RunKeepsLedger(s, actions, handle);
    FramingIsPrefixFree(l.reader.accepted, InTransit(l), l.sent);
  }

  /** Once ring and wire are empty, a handler that never rejects has been given everything that was sent. */
  lemma DrainedMeansDelivered<S>(s: S, actions: seq<Action>, handle: (S, Message) -> (S, bool))
    requires forall t, m :: handle(t, m).1
    requires var l := Run(Fresh(s), actions, handle);
             l.overruns == 0 && l.wire == [] && l.tx.pending == []
    ensures var l := Run(Fresh(s), actions, handle);
            && l.reader.accepted == l.sent
            && l.reader.buffer == []
            && l.reader.state == Fold(l.sent, s, handle)
  {
    var l := Run(Fresh(s), actions, handle);
    RunKeepsLedger(s, actions, handle);
    RunIsDrained(s, actions, handle);
    assert InTransit(l) == l.reader.buffer;
    ParseInvertsEncode(l.reader.accepted, l.reader.buffer);
    ParseInvertsEncode(l.sent, []);
    assert EncodeAll(l.sent) + [] == EncodeAll(l.sent);
  }

  lemma {:induction false} RunIsDrained<S>(s: S, actions: seq<Action>, handle: (S, Message) -> (S, bool))
    requires forall t, m :: handle(t, m).1
    ensures var r := Run(Fresh(s), actions, handle).reader;
            !FrontOf(r.buffer).Complete? && r.state == Fold(r.accepted, s, handle)
    decreases |actions|
  {
    if actions == [] {
    } else {
      var n := |actions| - 1;
      RunIsDrained(s, actions[..n], handle);
      var l := Run(Fresh(s), actions[..n], handle);
      if actions[n].Receive? {
        ReadChunkKeepsDrained(s, l.reader, l.wire[..ReadSize(l.reader.buffer, l.wire, actions[n].result)], handle);
      }
    }
  }

  lemma FullBufferReadsNothing<S>(l: Link<S>, a: Action, handle: (S, Message) -> (S, bool))
    requires l.tx.Valid() && |l.reader.buffer| == MAX_RX_BUFFER
    ensures Step(l, a, handle).reader == l.reader && Step(l, a, handle).tx.Valid()
  {
  }

  /**
   A receive buffer that fills up before its front frame is complete is stuck: `read()` is offered
   no room, returns nothing, and the frame loop is never entered again.
   */
  lemma {:induction false} FullBufferStallsForever<S>(l: Link<S>, actions: seq<Action>,
                                                            handle: (S, Message) -> (S, bool))
    requires l.tx.Valid() && |l.reader.buffer| == MAX_RX_BUFFER
    ensures Run(l, actions, handle).reader == l.reader
    decreases |actions|
  {
    if actions == [] {
    } else {
      var n := |actions| - 1;
      FullBufferStallsForever(l, actions[..n], handle);
      FullBufferReadsNothing(Run(l, actions[..n], handle), actions[n], handle);
    }
  }

  // ---------- how much one connection can carry ----------

  /** The cursors are the running totals modulo the ring size. */
  ghost predicate CursorsAreTotals<S>(l: Link<S>) {
    && l.tx.Valid()
    && l.tx.End() == |EncodeAll(l.sent)| % MAX_TX_BUFFER
    && l.tx.start == l.flushed % MAX_TX_BUFFER
  }

  /** Some initial run of the accepted messages makes up exactly one ring of bytes. */
  ghost predicate LandsOnTheEnd(sent: seq<Message>) {
    exists k :: 0 <= k <= |sent| && LandsAt(sent, k)
  }

  predicate LandsAt(sent: seq<Message>, k: nat)
    requires k <= |sent|
  {
    |EncodeAll(sent[..k])| == MAX_TX_BUFFER
  }

  lemma {:induction false} RunKeepsCursors<S>(s: S, actions: seq<Action>, handle: (S, Message) -> (S, bool))
    ensures CursorsAreTotals(Run(Fresh(s), actions, handle))
    decreases |actions|
  {
    if actions == [] {
    } else {
      var n := |actions| - 1;
      RunKeepsCursors(s, actions[..n], handle);
      StepKeepsCursors(Run(Fresh(s), actions[..n], handle), actions[n], handle);
    }
  }

  lemma StepKeepsCursors<S>(l: Link<S>, a: Action, handle: (S, Message) -> (S, bool))
    requires CursorsAreTotals(l)
    ensures CursorsAreTotals(Step(l, a, handle))
  {
    match a
    case Send(m) =>
      if Write(l.tx, Encode(m)).ok {
        EncodeAllSnoc(l.sent, m);
        EndAfterWrite(l.tx, Encode(m));
        RingPosition(|EncodeAll(l.sent)|, FrameSize(m));
      }
    case Flush(result) =>
      RingPosition(l.flushed, Taken(l.tx, result));
      var n := Taken(l.tx, result);
      assert l.tx.Advance(n).End() == l.tx.End();
    case Receive(_) =>
  }

  lemma RingPosition(total: nat, n: nat)
    requires total % MAX_TX_BUFFER + n <= MAX_TX_BUFFER
    ensures (total + n) % MAX_TX_BUFFER ==
            if total % MAX_TX_BUFFER + n == MAX_TX_BUFFER then 0 else total % MAX_TX_BUFFER + n
  {
  }

  /**
   A connection carries more than 1,000,000 bytes in one direction only if the frames accepted
   so far at some point add up to exactly 1,000,000: the end cursor wraps nowhere else,
   however often the ring has been drained in between.
   */
  lemma {:induction false} LifetimeCapacity<S>(s: S, actions: seq<Action>, handle: (S, Message) -> (S, bool))
    ensures var l := Run(Fresh(s), actions, handle);
            |EncodeAll(l.sent)| <= MAX_TX_BUFFER || LandsOnTheEnd(l.sent)
    decreases |actions|
  {
    if actions == [] {
    } else {
      var n := |actions| - 1;
      LifetimeCapacity(s, actions[..n], handle);
      RunKeepsCursors(s, actions[..n], handle);
      if actions[n].Send? && Write(Run(Fresh(s), actions[..n], handle).tx, Encode(actions[n].msg)).ok {
        SendKeepsCapacity(Run(Fresh(s), actions[..n], handle), actions[n].msg);
      }
    }
  }

  lemma SendKeepsCapacity<S>(l: Link<S>, m: Message)
    requires CursorsAreTotals(l) && Write(l.tx, Encode(m)).ok
    requires |EncodeAll(l.sent)| <= MAX_TX_BUFFER || LandsOnTheEnd(l.sent)
    ensures |EncodeAll(l.sent + [m])| <= MAX_TX_BUFFER || LandsOnTheEnd(l.sent + [m])
  {
    var total := |EncodeAll(l.sent)|;
    EncodeAllSnoc(l.sent, m);
    EndAfterWrite(l.tx, Encode(m));
    if total == MAX_TX_BUFFER {
      assert l.sent[..|l.sent|] == l.sent && LandsAt(l.sent, |l.sent|);
    }
    if total >= MAX_TX_BUFFER {
      LandingPersists(l.sent, m);
    }
  }

  lemma LandingPersists(sent: seq<Message>, m: Message)
    requires LandsOnTheEnd(sent)
    ensures LandsOnTheEnd(sent + [m])
  {
    var k :| 0 <= k <= |sent| && LandsAt(sent, k);
    assert (sent + [m])[..k] == sent[..k];
    assert LandsAt(sent + [m], k);
  }

  /** No frame crosses the end of the array, when frames are laid one after another around it. */
  predicate StaysOnTheArray(ms: seq<Message>) {
    forall k :: 0 <= k < |ms| ==> EndsOnTheArray(ms, k)
  }

  predicate EndsOnTheArray(ms: seq<Message>, k: nat)
    requires k < |ms|
  {
    |EncodeAll(ms[..k])| % MAX_TX_BUFFER + FrameSize(ms[k]) <= MAX_TX_BUFFER
  }

  lemma StaysOneMore(ms: seq<Message>, m: Message)
    ensures StaysOnTheArray(ms + [m]) <==>
            StaysOnTheArray(ms) && |EncodeAll(ms)| % MAX_TX_BUFFER + FrameSize(m) <= MAX_TX_BUFFER
  {
    var all := ms + [m];
    assert all[..|ms|] == ms && all[|ms|] == m;
    forall k | 0 <= k < |ms|
      ensures EndsOnTheArray(all, k) <==> EndsOnTheArray(ms, k)
    {
      assert all[..k] == ms[..k];
    }
    if StaysOnTheArray(all) {
      assert EndsOnTheArray(all, |ms|);
      assert forall k :: 0 <= k < |ms| ==> EndsOnTheArray(all, k);
    }
  }

  lemma {:induction false} AcceptedStayOnTheArray<S>(s: S, actions: seq<Action>, handle: (S, Message) -> (S, bool))
    ensures StaysOnTheArray(Run(Fresh(s), actions, handle).sent)
    decreases |actions|
  {
    if actions == [] {
    } else {
      var n := |actions| - 1;
      var l := Run(Fresh(s), actions[..n], handle);
      AcceptedStayOnTheArray(s, actions[..n], handle);
      RunKeepsCursors(s, actions[..n], handle);
      if actions[n].Send? {
        StaysOneMore(l.sent, actions[n].msg);
      }
    }
  }

  /** Each message is written into an empty ring, flushed to the end and read. */
  function OneByOne(ms: seq<Message>): seq<Action> {
    if ms == [] then []
    else
      var n := |ms| - 1;
      OneByOne(ms[..n]) + [Send(ms[n])] + [Flush(MAX_TX_BUFFER)] + [Flush(MAX_TX_BUFFER)] + [Receive(MAX_RX_BUFFER)]
  }

  /** One round of it. */
  function Round<S>(l: Link<S>, m: Message, handle: (S, Message) -> (S, bool)): (l': Link<S>)
    requires l.tx.Valid()
    ensures l'.tx.Valid()
  {
    var l1 := Step(l, Send(m), handle);
    var l2 := Step(l1, Flush(MAX_TX_BUFFER), handle);
    var l3 := Step(l2, Flush(MAX_TX_BUFFER), handle);
    Step(l3, Receive(MAX_RX_BUFFER), handle)
  }

  lemma OneMoreRound<S>(s: S, ms: seq<Message>, m: Message, handle: (S, Message) -> (S, bool))
    ensures Run(Fresh(s), OneByOne(ms + [m]), handle) == Round(Run(Fresh(s), OneByOne(ms), handle), m, handle)
  {
    assert (ms + [m])[..|ms|] == ms;
    var before := OneByOne(ms);
    var l := Fresh(s);
    var flush := [Flush(MAX_TX_BUFFER)];
    RunNext(l, before, Send(m), handle);
    RunNext(l, before + [Send(m)], Flush(MAX_TX_BUFFER), handle);
    RunNext(l, before + [Send(m)] + flush, Flush(MAX_TX_BUFFER), handle);
    RunNext(l, before + [Send(m)] + flush + flush, Receive(MAX_RX_BUFFER), handle);
  }

  /** A round on an empty ring sends the message; if it can be read at once, nothing stays on the wire. */
  lemma RoundSends<S>(l: Link<S>, m: Message, handle: (S, Message) -> (S, bool))
    requires CursorsAreTotals(l) && l.tx.pending == []
    requires |EncodeAll(l.sent)| % MAX_TX_BUFFER + FrameSize(m) <= MAX_TX_BUFFER
    ensures var l' := Round(l, m, handle);
            && l'.sent == l.sent + [m] && l'.tx.pending == [] && (Sendable(m) ==> l'.overruns == l.overruns)
            && (Sendable(m) && l.wire == [] && l.reader.buffer == [] ==> l'.wire == [])
  {
    SendIntoEmpty(l, m, handle);
    var l1 := Step(l, Send(m), handle);
    TwoFullFlushesDrain(l1.tx, MAX_TX_BUFFER, MAX_TX_BUFFER);
    if Sendable(m) && l.wire == [] {
      FlushesMove(l1, handle);
    }
  }

  lemma FlushesMove<S>(l: Link<S>, handle: (S, Message) -> (S, bool))
    requires l.tx.Valid() && l.wire == []
    ensures var l' := Step(Step(l, Flush(MAX_TX_BUFFER), handle), Flush(MAX_TX_BUFFER), handle);
            |l'.wire| <= |l.tx.pending| && l'.reader == l.reader
  {
  }

  lemma {:induction false} OneByOneSends<S>(s: S, ms: seq<Message>, handle: (S, Message) -> (S, bool))
    requires StaysOnTheArray(ms)
    ensures var l := Run(Fresh(s), OneByOne(ms), handle);
            && l.sent == ms && l.tx.pending == []
            && ((forall i :: 0 <= i < |ms| ==> Sendable(ms[i])) ==> l.overruns == 0)
    decreases |ms|
  {
    if ms == [] {
    } else {
      var n := |ms| - 1;
      assert ms == ms[..n] + [ms[n]];
      StaysOneMore(ms[..n], ms[n]);
      OneByOneSends(s, ms[..n], handle);
      RunKeepsCursors(s, OneByOne(ms[..n]), handle);
      OneMoreRound(s, ms[..n], ms[n], handle);
      RoundSends(Run(Fresh(s), OneByOne(ms[..n]), handle), ms[n], handle);
    }
  }

  lemma {:induction false} OneByOneDelivers<S>(s: S, ms: seq<Message>, handle: (S, Message) -> (S, bool))
    requires StaysOnTheArray(ms) && (forall i :: 0 <= i < |ms| ==> Sendable(ms[i])) && forall t, m :: handle(t, m).1
    ensures var l := Run(Fresh(s), OneByOne(ms), handle);
            l.sent == l.reader.accepted == ms && l.wire == [] && l.reader.buffer == []
    decreases |ms|
  {
    OneByOneSends(s, ms, handle);
    if ms == [] {
    } else {
      var n := |ms| - 1;
      assert ms == ms[..n] + [ms[n]];
      StaysOneMore(ms[..n], ms[n]);
      OneByOneSends(s, ms[..n], handle);
      OneByOneDelivers(s, ms[..n], handle);
      RunKeepsCursors(s, OneByOne(ms[..n]), handle);
      OneMoreRound(s, ms[..n], ms[n], handle);
      RoundSends(Run(Fresh(s), OneByOne(ms[..n]), handle), ms[n], handle);
      DrainedMeansDelivered(s, OneByOne(ms), handle);
    }
  }

  lemma SendIntoEmpty<S>(l: Link<S>, m: Message, handle: (S, Message) -> (S, bool))
    requires CursorsAreTotals(l) && l.tx.pending == []
    requires |EncodeAll(l.sent)| % MAX_TX_BUFFER + FrameSize(m) <= MAX_TX_BUFFER
    ensures var l' := Step(l, Send(m), handle);
            l'.sent == l.sent + [m] && (Sendable(m) ==> l'.overruns == l.overruns)
  {
  }

  /**
   What one connection can carry: some schedule gets exactly `ms` accepted if and only if no frame of
   it crosses the end of the array.  If so, and each is a message the sender can build, none need be lost.
   */
  lemma CanBeSentIff<S>(s: S, ms: seq<Message>, handle: (S, Message) -> (S, bool))
    ensures (exists actions: seq<Action> :: Run(Fresh(s), actions, handle).sent == ms) <==> StaysOnTheArray(ms)
    ensures StaysOnTheArray(ms) && (forall i :: 0 <= i < |ms| ==> Sendable(ms[i])) ==>
              exists actions: seq<Action> ::
                var l := Run(Fresh(s), actions, handle);
                l.sent == ms && Conserved(l)
  {
    if StaysOnTheArray(ms) {
      OneByOneSends(s, ms, handle);
      RunKeepsLedger(s, OneByOne(ms), handle);
    }
    if actions: seq<Action> :| Run(Fresh(s), actions, handle).sent == ms {
      AcceptedStayOnTheArray(s, actions, handle);
    }
  }

  /**
   Some schedule gets messages the sender can build not only accepted but delivered to a handler that accepts,
   each once and in order, if and only if no frame crosses the end of the array.
   */
  lemma CanBeDeliveredIff<S>(s: S, ms: seq<Message>, handle: (S, Message) -> (S, bool))
    requires (forall i :: 0 <= i < |ms| ==> Sendable(ms[i])) && forall t, m :: handle(t, m).1
    ensures (exists actions: seq<Action> ::
               var l := Run(Fresh(s), actions, handle); l.sent == l.reader.accepted == ms) <==> StaysOnTheArray(ms)
  {
    if StaysOnTheArray(ms) {
      OneByOneDelivers(s, ms, handle);
    }
    if actions: seq<Action> :| Run(Fresh(s), actions, handle).sent == ms {
      AcceptedStayOnTheArray(s, actions, handle);
    }
  }

  /** A write is refused exactly when it would cross the end of the array or exceed the free space. */
  lemma RefusedIff<S>(s: S, actions: seq<Action>, handle: (S, Message) -> (S, bool), m: Message)
    ensures var l := Run(Fresh(s), actions, handle);
            Step(l, Send(m), handle).sent == l.sent <==>
            || |EncodeAll(l.sent)| % MAX_TX_BUFFER + FrameSize(m) > MAX_TX_BUFFER
            || |l.tx.pending| + FrameSize(m) > MAX_TX_BUFFER
  {
    var l := Run(Fresh(s), actions, handle);
    RunKeepsCursors(s, actions, handle);
    assert |l.sent + [m]| == |l.sent| + 1;
  }
}
