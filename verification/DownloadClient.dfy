/**
 The client's side of a download as a function of the messages it is given: the local file, the
 flag that ends its event loop, and the queue of its connection.
 */
module DownloadClient {
  import opened Frames
  import opened TxRing
  import opened FileSending
  import ServerProtocol

  const ACK: Message := RawMessage(FILE_DATA_END_ACK, [])

  /** `writeCalls` counts calls of `write()` on the local file, `short` whether one took less than it was given. */
  datatype Client = Client(open: bool, local: seq<Byte>, complete: bool, tx: Tx, log: seq<Message>,
                           writeCalls: nat, short: bool)

  /** The handler never rejects.  `result` is what `write()` returns if the message makes it write. */
  function HandleDownload(c: Client, m: Message, result: int): (c': Client)
    requires c.tx.Valid()
    ensures c'.tx.Valid()
  {
    if m.kind == FILE_READY_RECV then
      if ServerProtocol.SaysOk(m.data) then c else c.(complete := true)
    else if m.kind == FILE_DATA then
      if !c.open then c.(complete := true)
      else
        var n := if result < 0 then 0 else if result < |m.data| then result else |m.data|;
        var failed := result < 0 || n != |m.data|;
        c.(local := c.local + m.data[..n], complete := c.complete || failed,
           writeCalls := c.writeCalls + 1, short := c.short || n != |m.data|)
    else if m.kind == FILE_DATA_END then
      var w := Write(c.tx, Encode(ACK));
      c.(open := false, complete := true, tx := w.tx, log := if w.ok then c.log + [ACK] else c.log)
    else c
  }

  /** The client handling one message after another, `results(k)` being the outcome of its `k`-th write. */
  function HandleAll(c: Client, ms: seq<Message>, results: nat -> int): (c': Client)
    requires c.tx.Valid()
    ensures c'.tx.Valid()
    decreases |ms|
  {
    if ms == [] then c
    else
      var n := |ms| - 1;
      var q := HandleAll(c, ms[..n], results);
      HandleDownload(q, ms[n], results(q.writeCalls))
  }

  /** A client that has opened its local file and queued its request. */
  predicate Started(c: Client) {
    c.tx.Valid() && c.open && c.local == [] && !c.short && !c.complete
  }

  /**
   After any messages the local file is what the messages deliver up to the first end mark if and
   only if no write was short; the file is closed exactly by an end mark, which completes the client.
   */
  lemma {:induction false} LocalFileIff(c: Client, ms: seq<Message>, results: nat -> int)
    requires Started(c)
    ensures var c' := HandleAll(c, ms, results);
            && (c'.open <==> EndMarks(ms) == 0)
            && (!c'.open ==> c'.complete)
            && |c'.local| <= |Delivered(ms)|
            && (c'.local == Delivered(ms) <==> !c'.short)
            && (c'.short ==> |c'.local| < |Delivered(ms)|)
    decreases |ms|
  {
    if ms == [] {
    } else {
      var n := |ms| - 1;
      var q := HandleAll(c, ms[..n], results);
      LocalFileIff(c, ms[..n], results);
      assert ms == ms[..n] + [ms[n]];
      DeliveredAppend(ms[..n], [ms[n]]);
      DeliveredOne(ms[n]);
      HandleDownloadWrites(q, ms[n], results(q.writeCalls), Delivered(ms[..n]));
    }
  }

  lemma HandleDownloadWrites(c: Client, m: Message, result: int, expected: seq<Byte>)
    requires c.tx.Valid() && (!c.open ==> c.complete)
    requires |c.local| <= |expected| && (c.local == expected <==> !c.short) && (c.short ==> |c.local| < |expected|)
    ensures var c' := HandleDownload(c, m, result);
            var expected' := if c.open && m.kind == FILE_DATA then expected + m.data else expected;
            && (c'.open <==> c.open && m.kind != FILE_DATA_END)
            && (!c'.open ==> c'.complete)
            && |c'.local| <= |expected'|
            && (c'.local == expected' <==> !c'.short)
            && (c'.short ==> |c'.local| < |expected'|)
  {
    assert m.data[..|m.data|] == m.data;
  }

  /** The payloads the client writes: those of the data messages before the first end mark. */
  function Writes(ms: seq<Message>): seq<seq<Byte>>
    decreases |ms|
  {
    if ms == [] then []
    else
      var n := |ms| - 1;
      Writes(ms[..n]) + (if ms[n].kind == FILE_DATA && EndMarks(ms[..n]) == 0 then [ms[n].data] else [])
  }

  /** `write()` returned less than it was given; nothing is missing of an empty payload. */
  predicate FallsShort(result: int, payload: seq<Byte>) {
    payload != [] && result < |payload|
  }

  /** The write numbered `from + k` is given the `k`-th payload; some of them fell short. */
  ghost predicate SomeFellShort(ms: seq<Message>, from: nat, results: nat -> int) {
    exists k :: 0 <= k < |Writes(ms)| && FallsShort(results(from + k), Writes(ms)[k])
  }

  /** The calls of `write()` are counted, and `short` tells whether one fell short. */
  ghost predicate CountsWrites(c: Client, ms: seq<Message>, from: nat, results: nat -> int) {
    c.writeCalls == from + |Writes(ms)| && (c.short <==> SomeFellShort(ms, from, results))
  }

  lemma {:induction false} MessageCountsWrites(c: Client, ms: seq<Message>, m: Message, from: nat, results: nat -> int)
    requires c.tx.Valid() && CountsWrites(c, ms, from, results) && (c.open <==> EndMarks(ms) == 0)
    ensures CountsWrites(HandleDownload(c, m, results(c.writeCalls)), ms + [m], from, results)
  {
    assert (ms + [m])[..|ms|] == ms;
    var w, w' := Writes(ms), Writes(ms + [m]);
    if m.kind == FILE_DATA && c.open {
      assert w' == w + [m.data];
      if SomeFellShort(ms, from, results) {
        var k :| 0 <= k < |w| && FallsShort(results(from + k), w[k]);
        assert FallsShort(results(from + k), w'[k]);
      }
      if FallsShort(results(from + |w|), m.data) {
        assert FallsShort(results(from + |w|), w'[|w|]);
      }
      if SomeFellShort(ms + [m], from, results) {
        var k :| 0 <= k < |w'| && FallsShort(results(from + k), w'[k]);
        assert k < |w| ==> FallsShort(results(from + k), w[k]);
      }
    } else {
      assert w' == w;
    }
  }

  /** So the local file is what was delivered if and only if no call of `write()` fell short of its payload. */
  lemma {:induction false} LocalFileIsDeliveredIff(c: Client, ms: seq<Message>, results: nat -> int)
    requires Started(c)
    ensures var c' := HandleAll(c, ms, results);
            && CountsWrites(c', ms, c.writeCalls, results)
            && (c'.local == Delivered(ms) <==> !SomeFellShort(ms, c.writeCalls, results))
    decreases |ms|
  {
    LocalFileIff(c, ms, results);
    if ms == [] {
    } else {
      var n := |ms| - 1;
      LocalFileIsDeliveredIff(c, ms[..n], results);
      LocalFileIff(c, ms[..n], results);
      assert ms[..n] + [ms[n]] == ms;
      MessageCountsWrites(HandleAll(c, ms[..n], results), ms[..n], ms[n], c.writeCalls, results);
    }
  }

  // ---------- when the client stops ----------

  /** An answer that does not begin with OK. */
  predicate IsRefusal(m: Message) {
    m.kind == FILE_READY_RECV && !ServerProtocol.SaysOk(m.data)
  }

  predicate RefusedBy(ms: seq<Message>, i: int) {
    0 <= i < |ms| && IsRefusal(ms[i])
  }

  ghost predicate SomeRefusal(ms: seq<Message>) {
    exists i :: RefusedBy(ms, i)
  }

  predicate Failed(result: int, payload: seq<Byte>) {
    result < |payload|
  }

  predicate FailedAt(payloads: seq<seq<Byte>>, from: nat, results: nat -> int, k: int) {
    0 <= k < |payloads| && Failed(results(from + k), payloads[k])
  }

  ghost predicate SomeFailed(payloads: seq<seq<Byte>>, from: nat, results: nat -> int) {
    exists k :: FailedAt(payloads, from, results, k)
  }

  /** Some call of `write()` failed or took less than it was given. */
  ghost predicate SomeWriteFailed(ms: seq<Message>, from: nat, results: nat -> int) {
    SomeFailed(Writes(ms), from, results)
  }

  /** What the messages give a client reason to stop for. */
  ghost predicate Stops(ms: seq<Message>, from: nat, results: nat -> int) {
    SomeRefusal(ms) || SomeWriteFailed(ms, from, results) || EndMarks(ms) > 0
  }

  lemma {:induction false} RefusalAppend(ms: seq<Message>, m: Message)
    ensures SomeRefusal(ms + [m]) <==> SomeRefusal(ms) || IsRefusal(m)
  {
    var all := ms + [m];
    if i :| RefusedBy(ms, i) {
      assert RefusedBy(all, i);
    }
    if IsRefusal(m) {
      assert RefusedBy(all, |ms|);
    }
    if i :| RefusedBy(all, i) {
      assert i < |ms| ==> RefusedBy(ms, i);
    }
  }

  lemma {:induction false} SomeFailedAppend(w: seq<seq<Byte>>, payload: seq<Byte>, from: nat, results: nat -> int)
    ensures SomeFailed(w + [payload], from, results) <==>
              SomeFailed(w, from, results) || Failed(results(from + |w|), payload)
  {
    var w' := w + [payload];
    if k :| FailedAt(w, from, results, k) {
      assert FailedAt(w', from, results, k);
    }
    if Failed(results(from + |w|), payload) {
      assert FailedAt(w', from, results, |w|);
    }
    if k :| FailedAt(w', from, results, k) {
      assert k < |w| ==> FailedAt(w, from, results, k);
    }
  }

  lemma {:induction false} WriteFailedAppend(ms: seq<Message>, m: Message, from: nat, results: nat -> int)
    ensures SomeWriteFailed(ms + [m], from, results) <==>
            || SomeWriteFailed(ms, from, results)
            || (m.kind == FILE_DATA && EndMarks(ms) == 0 && Failed(results(from + |Writes(ms)|), m.data))
  {
    WritesAppend(ms, m);
    if m.kind == FILE_DATA && EndMarks(ms) == 0 {
      SomeFailedAppend(Writes(ms), m.data, from, results);
    }
  }

  lemma {:induction false} WritesAppend(ms: seq<Message>, m: Message)
    ensures Writes(ms + [m]) ==
            if m.kind == FILE_DATA && EndMarks(ms) == 0 then Writes(ms) + [m.data] else Writes(ms)
  {
    assert (ms + [m])[..|ms|] == ms;
  }

  /** The reasons one message gives. */
  predicate IsReason(c: Client, m: Message, result: int) {
    IsRefusal(m) || (m.kind == FILE_DATA && (!c.open || Failed(result, m.data))) || m.kind == FILE_DATA_END
  }

  lemma HandlerCompletesIff(c: Client, m: Message, result: int)
    requires c.tx.Valid()
    ensures HandleDownload(c, m, result).complete <==> c.complete || IsReason(c, m, result)
  {
  }

  lemma {:induction false} EndAppend(ms: seq<Message>, m: Message)
    ensures EndMarks(ms + [m]) > 0 <==> EndMarks(ms) > 0 || m.kind == FILE_DATA_END
  {
    DeliveredAppend(ms, [m]);
    DeliveredOne(m);
  }

  lemma {:induction false} StopsAppend(c: Client, ms: seq<Message>, m: Message, from: nat, results: nat -> int)
    requires (c.open <==> EndMarks(ms) == 0) && c.writeCalls == from + |Writes(ms)|
    ensures Stops(ms + [m], from, results) <==> Stops(ms, from, results) || IsReason(c, m, results(c.writeCalls))
  {
    RefusalAppend(ms, m);
    WriteFailedAppend(ms, m, from, results);
    EndAppend(ms, m);
  }

  /** Whether a client is complete for these reasons, or for `another`, one more message does not change. */
  lemma {:induction false} MessageKeepsReasons(c: Client, ms: seq<Message>, m: Message, from: nat,
                                               results: nat -> int, another: bool)
    requires c.tx.Valid() && (c.open <==> EndMarks(ms) == 0) && c.writeCalls == from + |Writes(ms)|
    requires c.complete <==> another || Stops(ms, from, results)
    ensures HandleDownload(c, m, results(c.writeCalls)).complete <==> another || Stops(ms + [m], from, results)
  {
    HandlerCompletesIff(c, m, results(c.writeCalls));
    StopsAppend(c, ms, m, from, results);
  }

  /**
   A client stops if and only if it was given an answer that does not begin with OK, a call of `write()`
   failed or fell short, or it was given an end mark.
   */
  lemma {:induction false} CompletesIff(c: Client, ms: seq<Message>, results: nat -> int)
    requires Started(c)
    ensures HandleAll(c, ms, results).complete <==> Stops(ms, c.writeCalls, results)
    decreases |ms|
  {
    if ms == [] {
    } else {
      var n := |ms| - 1;
      CompletesIff(c, ms[..n], results);
      LocalFileIff(c, ms[..n], results);
      LocalFileIsDeliveredIff(c, ms[..n], results);
      assert ms[..n] + [ms[n]] == ms;
      MessageKeepsReasons(HandleAll(c, ms[..n], results), ms[..n], ms[n], c.writeCalls, results, false);
    }
  }

  /** A short write in the middle breaks the promise: the rest is appended behind the gap. */
  lemma ShortWriteLeavesAGap(c: Client, results: nat -> int)
    requires Started(c) && results(c.writeCalls) == results(c.writeCalls + 1) == 1
    ensures var ms := [RawMessage(FILE_DATA, [1, 2]), RawMessage(FILE_DATA, [3])];
            var c' := HandleAll(c, ms, results);
            c'.local == [1, 3] && Delivered(ms) == [1, 2, 3] && !(c'.local <= Delivered(ms))
  {
    var a, b: Message := RawMessage(FILE_DATA, [1, 2]), RawMessage(FILE_DATA, [3]);
    assert [a, b][..1] == [a] && [a][..0] == [] && [a, b][1..] == [b] && [b][1..] == [];
    assert HandleAll(c, [a], results).local == [1];
    assert HandleAll(c, [a, b], results).local == [1] + [3] == [1, 3];
    assert Delivered([b]) == [3] + [] && Delivered([a, b]) == [1, 2] + [3] == [1, 2, 3];
    assert [1, 2, 3][1] != [1, 3][1];
  }
}
