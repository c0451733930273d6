/**
 The wire format shared by client and server: a twelve-byte header of three
 little-endian 32-bit words (magic, type, payload length) followed by the payload.
 */
module Frames {
  type Byte = n: int | 0 <= n < 0x100
  type UInt32 = n: int | 0 <= n < 0x1_0000_0000

  const PROTOCOL_MAGIC: UInt32 := 0xCAFE_BABE
  const HEADER_SIZE := 12
  const MAX_MESSAGE_DATA := 4096
  const INT_MAX := 0x7FFF_FFFF

  const PTY_DATA: UInt32 := 0x07
  const OPEN_BASH: UInt32 := 0x08
  const OPEN_CMD: UInt32 := 0x09
  const WINDOW_SIZE: UInt32 := 0x0A
  const CLIENT_DATA: UInt32 := 0x0B
  const CLIENT_END: UInt32 := 0x0C
  const FILE_UPLOAD_START: UInt32 := 0x0D
  const FILE_DOWNLOAD_START: UInt32 := 0x0E
  const FILE_READY_SEND: UInt32 := 0x0F
  const FILE_READY_RECV: UInt32 := 0x10
  const FILE_DATA: UInt32 := 0x11
  const FILE_DATA_END: UInt32 := 0x12
  const FILE_DATA_BEGIN: UInt32 := 0x13
  const FILE_DATA_END_ACK: UInt32 := 0x14

  datatype RawMessage = RawMessage(kind: UInt32, data: seq<Byte>)

  /** A message whose whole frame length fits the C `int` the queue computes it in. */
  type Message = m: RawMessage | |m.data| <= INT_MAX - HEADER_SIZE witness RawMessage(0, [])

  /** What senders may queue: the payload fits the `data` field of the C structure. */
  predicate Sendable(m: Message) {
    |m.data| <= MAX_MESSAGE_DATA
  }

  function FrameSize(m: Message): (n: nat) {
    HEADER_SIZE + |m.data|
  }

  // ---------- 32-bit little-endian words ----------

  function Digit(n: UInt32, i: nat): Byte
    requires i < 4
  {
    match i
    case 0 => n % 0x100
    case 1 => n / 0x100 % 0x100
    case 2 => n / 0x1_0000 % 0x100
    case _ => n / 0x100_0000
  }

  function PutU32(n: UInt32): (b: seq<Byte>)
    ensures |b| == 4
  {
    seq(4, i requires 0 <= i < 4 => Digit(n, i))
  }

  function GetU32(b: seq<Byte>): (n: UInt32)
    requires |b| == 4
  {
    var b0: int, b1: int, b2: int, b3: int := b[0], b[1], b[2], b[3];
    b0 + 0x100 * b1 + 0x1_0000 * b2 + 0x100_0000 * b3
  }

  /** The two word conversions are inverse to each other, in both directions. */
  lemma WordRoundTrip(n: UInt32, b: seq<Byte>)
    requires |b| == 4
    ensures GetU32(PutU32(n)) == n
    ensures PutU32(GetU32(b)) == b
  {
    Digits(n);
    DigitsUnique(b[0], b[1], b[2], b[3]);
  }

  lemma Digits(n: int)
    requires n >= 0
    ensures n == n % 0x100 + 0x100 * (n / 0x100 % 0x100) + 0x1_0000 * (n / 0x1_0000 % 0x100)
              + 0x100_0000 * (n / 0x100_0000)
  {
    assert n / 0x1_0000 == n / 0x100 / 0x100;
    assert n / 0x100_0000 == n / 0x1_0000 / 0x100;
  }

  lemma DigitsUnique(b0: Byte, b1: Byte, b2: Byte, b3: Byte)
    ensures var n: int := (b0 as int) + 0x100 * (b1 as int) + 0x1_0000 * (b2 as int) + 0x100_0000 * (b3 as int);
            && n % 0x100 == b0 && n / 0x100 % 0x100 == b1
            && n / 0x1_0000 % 0x100 == b2 && n / 0x100_0000 == b3
  {
    var n: int, i1: int, i2: int, i3: int :=
      (b0 as int) + 0x100 * (b1 as int) + 0x1_0000 * (b2 as int) + 0x100_0000 * (b3 as int), b1, b2, b3;
    assert n / 0x100 == i1 + 0x100 * i2 + 0x1_0000 * i3;
    assert n / 0x1_0000 == i2 + 0x100 * i3;
    assert n / 0x100_0000 == i3;
  }

  // ---------- frames ----------

  /** The three header words in memory: byte `i` is byte `i % 4` of word `i / 4`. */
  function Header(kind: UInt32, length: UInt32): (b: seq<Byte>)
    ensures |b| == HEADER_SIZE
  {
    seq(HEADER_SIZE, i requires 0 <= i < HEADER_SIZE =>
      Digit(if i < 4 then PROTOCOL_MAGIC else if i < 8 then kind else length, i % 4))
  }

  function Encode(m: Message): (b: seq<Byte>)
    ensures |b| == FrameSize(m)
  {
    Header(m.kind, |m.data|) + m.data
  }

  lemma HeaderWords(kind: UInt32, length: UInt32)
    ensures var h := Header(kind, length);
            h[0..4] == PutU32(PROTOCOL_MAGIC) && h[4..8] == PutU32(kind) && h[8..12] == PutU32(length)
  {
  }

  /**
   A frame byte by byte: the magic number as it lies in memory, type and length with their least
   significant byte first, and the payload.
   */
  lemma FrameBytes(m: Message)
    ensures var e := Encode(m);
            && e[0..4] == [0xBE, 0xBA, 0xFE, 0xCA]
            && m.kind == e[4] as int + 0x100 * (e[5] as int) + 0x1_0000 * (e[6] as int) + 0x100_0000 * (e[7] as int)
            && |m.data| == e[8] as int + 0x100 * (e[9] as int) + 0x1_0000 * (e[10] as int) + 0x100_0000 * (e[11] as int)
            && e[12..] == m.data
  {
    HeaderWords(m.kind, |m.data|);
    WordRoundTrip(m.kind, PutU32(m.kind));
    WordRoundTrip(|m.data|, PutU32(|m.data|));
    var e := Encode(m);
    assert e[0..4] == PutU32(PROTOCOL_MAGIC) == [0xBE, 0xBA, 0xFE, 0xCA];
    assert e[4..8] == PutU32(m.kind) && e[8..12] == PutU32(|m.data|);
  }

  function EncodeAll(ms: seq<Message>): seq<Byte> {
    if ms == [] then [] else Encode(ms[0]) + EncodeAll(ms[1..])
  }

  lemma {:induction false} EncodeAllAppend(a: seq<Message>, b: seq<Message>)
    ensures EncodeAll(a + b) == EncodeAll(a) + EncodeAll(b)
  {
    if a == [] {
      assert a + b == b;
    } else {
      assert (a + b)[1..] == a[1..] + b;
      EncodeAllAppend(a[1..], b);
    }
  }

  lemma EncodeAllCons(m: Message, ms: seq<Message>)
    ensures EncodeAll([m] + ms) == Encode(m) + EncodeAll(ms)
  {
    assert ([m] + ms)[1..] == ms;
  }

  lemma EncodeAllSnoc(ms: seq<Message>, m: Message)
    ensures EncodeAll(ms + [m]) == EncodeAll(ms) + Encode(m)
  {
    EncodeAllAppend(ms, [m]);
    EncodeAllCons(m, []);
    assert [m] + [] == [m];
  }

  // ---------- what stands at the front of a byte stream ----------

  /** `Oversize` is a length field whose frame does not fit the C `int`. */
  datatype Front = Incomplete | BadMagic | Oversize | Complete(msg: Message)

  function FrontOf(b: seq<Byte>): (f: Front) {
    if |b| < HEADER_SIZE then Incomplete
    else if GetU32(b[0..4]) != PROTOCOL_MAGIC then BadMagic
    else
      var length := GetU32(b[8..12]);
      if length > INT_MAX - HEADER_SIZE then Oversize
      else if |b| < HEADER_SIZE + length then Incomplete
      else Complete(RawMessage(GetU32(b[4..8]), b[HEADER_SIZE..HEADER_SIZE + length]))
  }

  /** A message is recognised exactly when the stream starts with its encoding. */
  lemma FrontIsEncoding(b: seq<Byte>, m: Message)
    ensures FrontOf(b) == Complete(m) <==> Encode(m) <= b
  {
    if Encode(m) <= b {
      EncodingIsFront(b, m);
    }
    if FrontOf(b) == Complete(m) {
      FrontComesFromEncoding(b, m);
    }
  }

  lemma EncodingIsFront(b: seq<Byte>, m: Message)
    requires Encode(m) <= b
    ensures FrontOf(b) == Complete(m)
  {
    var h := Header(m.kind, |m.data|);
    HeaderWords(m.kind, |m.data|);
    WordRoundTrip(PROTOCOL_MAGIC, h[0..4]);
    WordRoundTrip(m.kind, h[4..8]);
    WordRoundTrip(|m.data|, h[8..12]);
    assert b[..HEADER_SIZE] == h;
    assert b[0..4] == b[..HEADER_SIZE][0..4];
    assert b[4..8] == b[..HEADER_SIZE][4..8];
    assert b[8..12] == b[..HEADER_SIZE][8..12];
    assert b[HEADER_SIZE..FrameSize(m)] == Encode(m)[HEADER_SIZE..] == m.data;
  }

  lemma FrontComesFromEncoding(b: seq<Byte>, m: Message)
    requires FrontOf(b) == Complete(m)
    ensures Encode(m) <= b
  {
    var h := Header(m.kind, |m.data|);
    HeaderWords(m.kind, |m.data|);
    WordRoundTrip(0, b[0..4]);
    WordRoundTrip(0, b[4..8]);
    WordRoundTrip(0, b[8..12]);
    assert h == h[0..4] + h[4..8] + h[8..12];
    assert b[..HEADER_SIZE] == b[0..4] + b[4..8] + b[8..12];
    assert b[..FrameSize(m)] == b[..HEADER_SIZE] + b[HEADER_SIZE..FrameSize(m)];
  }

  lemma FrameSplit(b: seq<Byte>, m: Message)
    requires FrontOf(b) == Complete(m)
    ensures |b| >= FrameSize(m)
    ensures b == Encode(m) + b[FrameSize(m)..]
  {
    FrontIsEncoding(b, m);
  }

  lemma Regroup<T>(x: seq<T>, y: seq<T>, z: seq<T>)
    ensures (x + y) + z == x + (y + z)
  {
  }

  /** More bytes never change a front that is already decided. */
  lemma FrontIsStable(b: seq<Byte>, c: seq<Byte>)
    requires FrontOf(b) != Incomplete
    ensures FrontOf(b + c) == FrontOf(b)
  {
    var d := b + c;
    assert d[0..4] == b[0..4] && d[4..8] == b[4..8] && d[8..12] == b[8..12];
    if !FrontOf(b).Complete? {
    } else {
      var n := HEADER_SIZE + |FrontOf(b).msg.data|;
      assert d[HEADER_SIZE..n] == b[HEADER_SIZE..n];
    }
  }

  /** A strict prefix of a frame is never anything but incomplete. */
  lemma StrictPrefixIsIncomplete(b: seq<Byte>, m: Message)
    requires b < Encode(m)
    ensures FrontOf(b) == Incomplete
  {
    FrontIsEncoding(Encode(m), m);
  }

  // ---------- the stream parser ----------

  datatype Parsed = Parsed(msgs: seq<Message>, rest: seq<Byte>)

  /** All complete frames at the front of a stream, and what follows them. */
  function Parse(b: seq<Byte>): Parsed
    decreases |b|
  {
    match FrontOf(b)
    case Complete(m) =>
      var p := Parse(b[FrameSize(m)..]);
      Parsed([m] + p.msgs, p.rest)
    case _ => Parsed([], b)
  }

  /** Parsing loses nothing and stops only where no frame is complete. */
  lemma {:induction false} ParseIsSound(b: seq<Byte>)
    ensures EncodeAll(Parse(b).msgs) + Parse(b).rest == b
    ensures !FrontOf(Parse(b).rest).Complete?
    decreases |b|
  {
    if !FrontOf(b).Complete? {
    } else {
      var m := FrontOf(b).msg;
      var tail := b[FrameSize(m)..];
      ParseIsSound(tail);
      EncodeAllCons(m, Parse(tail).msgs);
      FrameSplit(b, m);
      Regroup(Encode(m), EncodeAll(Parse(tail).msgs), Parse(tail).rest);
    }
  }

  /** Parsing recovers exactly the messages that were encoded. */
  lemma {:induction false} ParseInvertsEncode(ms: seq<Message>, rest: seq<Byte>)
    requires !FrontOf(rest).Complete?
    ensures Parse(EncodeAll(ms) + rest) == Parsed(ms, rest)
    decreases |ms|
  {
    var b := EncodeAll(ms) + rest;
    if ms == [] {
      assert b == rest;
    } else {
      FrontIsEncoding(b, ms[0]);
      assert b[FrameSize(ms[0])..] == EncodeAll(ms[1..]) + rest;
      ParseInvertsEncode(ms[1..], rest);
      assert [ms[0]] + ms[1..] == ms;
    }
  }

  /** Framing is uniquely decodable, so a byte prefix is a message prefix. */
  lemma {:induction false} FramingIsPrefixFree(a: seq<Message>, x: seq<Byte>, b: seq<Message>)
    requires EncodeAll(a) + x == EncodeAll(b)
    ensures a <= b
    ensures x == EncodeAll(b[|a|..])
    decreases |a|
  {
    if a == [] {
    } else {
      var s := EncodeAll(b);
      assert s == Encode(a[0]) + (EncodeAll(a[1..]) + x);
      FrontIsEncoding(s, a[0]);
      FrontIsEncoding(s, b[0]);
      assert EncodeAll(a[1..]) + x == s[FrameSize(a[0])..] == EncodeAll(b[1..]);
      FramingIsPrefixFree(a[1..], x, b[1..]);
      assert b[1..][|a[1..]|..] == b[|a|..];
      assert a == [a[0]] + a[1..] && b == [b[0]] + b[1..];
    }
  }
}
