/**
 The sending half of a message queue as a function.  A ring of 1,000,000 bytes is described
 by its start cursor and the bytes pending from there on; the end cursor follows from them.
 The class in MessageQueues.dfy implements these functions on an array with two cursors.
 */
module TxRing {
  import opened Frames

  const MAX_TX_BUFFER := 1_000_000

  datatype Tx = Tx(start: int, pending: seq<Byte>) {
    /** Cursors that coincide always read as empty, so a ring holds at most one byte less than its size. */
    predicate Valid() {
      0 <= start < MAX_TX_BUFFER && |pending| < MAX_TX_BUFFER
    }

    function End(): (e: int)
      requires Valid()
      ensures 0 <= e < MAX_TX_BUFFER
      ensures e == start <==> pending == []
    {
      var e := start + |pending|;
      if e < MAX_TX_BUFFER then e else e - MAX_TX_BUFFER
    }

    /** The contiguous space behind the end cursor, as the queue computes it from its two cursors. */
    function Room(): (n: nat)
      requires Valid()
    {
      if End() >= start then MAX_TX_BUFFER - End() else start - End()
    }

    /** Bytes are accepted if they fit the free space and do not cross the end of the array. */
    predicate Accepts(bytes: seq<Byte>)
      requires Valid()
    {
      |pending| + |bytes| <= MAX_TX_BUFFER && End() + |bytes| <= MAX_TX_BUFFER
    }

    /** The contiguous bytes a flush hands to `write()`. */
    function Offered(): (n: nat)
      requires Valid()
      ensures n <= |pending|
      ensures n == 0 <==> pending == []
    {
      if |pending| <= MAX_TX_BUFFER - start then |pending| else MAX_TX_BUFFER - start
    }

    predicate Saturated() {
      |pending| > MAX_TX_BUFFER / 2
    }

    /** The one accepted write that does not append: the cursors meet and the ring reads as empty. */
    predicate ExactlyFilledBy(bytes: seq<Byte>) {
      |pending| + |bytes| == MAX_TX_BUFFER
    }

    function Append(bytes: seq<Byte>): (t: Tx)
      requires Valid() && Accepts(bytes)
      ensures t.Valid()
    {
      Tx(start, if ExactlyFilledBy(bytes) then [] else pending + bytes)
    }

    function Advance(n: nat): (t: Tx)
      requires Valid() && n <= Offered()
      ensures t.Valid()
    {
      Tx(if start + n == MAX_TX_BUFFER then 0 else start + n, pending[n..])
    }
  }

  datatype WriteResult = WriteResult(ok: bool, tx: Tx)

  function Write(t: Tx, bytes: seq<Byte>): (w: WriteResult)
    requires t.Valid()
    ensures w.tx.Valid()
  {
    if t.Accepts(bytes) then WriteResult(true, t.Append(bytes)) else WriteResult(false, t)
  }

  /** `result` is what `write()` returned for the offered bytes; nothing moves unless it is positive. */
  function Flush(t: Tx, result: int): (t': Tx)
    requires t.Valid()
    ensures t'.Valid()
  {
    t.Advance(Taken(t, result))
  }

  /** The number of bytes the socket took: `write()` never takes more than it was offered. */
  function Taken(t: Tx, result: int): (n: nat)
    requires t.Valid()
    ensures n <= t.Offered()
    ensures result <= 0 ==> n == 0
    ensures result > 0 ==> n == if result < t.Offered() then result else t.Offered()
  {
    if result <= 0 then 0 else if result < t.Offered() then result else t.Offered()
  }

  /**
   The contiguous space the queue computes from its two cursors decides acceptance exactly as
   `Accepts` does.  So "there is enough free space" suffices only if the array's end is not crossed.
   */
  lemma ContiguousSpaceDecides(t: Tx, bytes: seq<Byte>)
    requires t.Valid()
    ensures Write(t, bytes).ok <==> |bytes| <= t.Room()
  {
  }

  /** A write behaves as an append to a FIFO queue if and only if it leaves at least one byte free. */
  lemma WriteAppendsIff(t: Tx, bytes: seq<Byte>)
    requires t.Valid() && Write(t, bytes).ok
    ensures Write(t, bytes).tx.pending == t.pending + bytes <==> |t.pending| + |bytes| < MAX_TX_BUFFER
    ensures bytes != [] ==>
              (|t.pending| + |bytes| == MAX_TX_BUFFER <==> Write(t, bytes).tx.End() == Write(t, bytes).tx.start)
  {
  }

  /** The end cursor moves by the length of each accepted write, and wraps only on the last index. */
  lemma EndAfterWrite(t: Tx, bytes: seq<Byte>)
    requires t.Valid() && Write(t, bytes).ok
    ensures t.End() + |bytes| <= MAX_TX_BUFFER
    ensures Write(t, bytes).tx.End() ==
            if t.End() + |bytes| == MAX_TX_BUFFER then 0 else t.End() + |bytes|
  {
  }

  // ---------- draining ----------

  function FlushAll(t: Tx, results: seq<int>): (t': Tx)
    requires t.Valid()
    ensures t'.Valid()
    decreases |results|
  {
    if results == [] then t else FlushAll(Flush(t, results[0]), results[1..])
  }

  /** Two flushes whose `write()` takes everything offered always empty the ring. */
  lemma TwoFullFlushesDrain(t: Tx, a: int, b: int)
    requires t.Valid()
    requires a >= t.Offered() && b >= Flush(t, a).Offered()
    ensures Flush(Flush(t, a), b).pending == []
  {
    var n := Taken(t, a);
    assert Flush(t, a) == t.Advance(n);
  }

  /** Any flushes that each make progress empty the ring within as many flushes as bytes are pending. */
  lemma {:induction false} PositiveFlushesDrain(t: Tx, results: seq<int>)
    requires t.Valid()
    requires forall i :: 0 <= i < |results| ==> results[i] >= 1
    requires |results| >= |t.pending|
    ensures FlushAll(t, results).pending == []
    decreases |results|
  {
    if t.pending == [] {
      EmptyStaysEmpty(t, results);
    } else {
      assert Taken(t, results[0]) >= 1;
      PositiveFlushesDrain(Flush(t, results[0]), results[1..]);
    }
  }

  lemma {:induction false} EmptyStaysEmpty(t: Tx, results: seq<int>)
    requires t.Valid() && t.pending == []
    ensures FlushAll(t, results).pending == []
    decreases |results|
  {
    if results == [] {
    } else {
      EmptyStaysEmpty(Flush(t, results[0]), results[1..]);
    }
  }
}
