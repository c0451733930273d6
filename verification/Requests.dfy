/**
 The text of a transfer request: the client prints two paths with "%s %s", the server copies
 the payload, terminates it and takes two tokens with strtok(buffer, " ").
 Paths are C strings: byte sequences without NUL.
 */
module Requests {
  import opened Frames
  import opened Options

  const NUL: Byte := 0
  const SPACE: Byte := 32

  datatype Paths = Paths(source: seq<Byte>, destination: seq<Byte>)

  predicate IsCString(s: seq<Byte>) {
    NUL !in s
  }

  /** What a strtok token is: it is non-empty and contains no delimiter. */
  predicate IsToken(s: seq<Byte>) {
    s != [] && SPACE !in s
  }

  // ---------- printing ----------

  function Text(p: Paths): seq<Byte> {
    p.source + [SPACE] + p.destination
  }

  /** What `snprintf` leaves in the data field: at most 4095 characters and the terminator. */
  function Printed(p: Paths): (b: seq<Byte>)
    ensures 1 <= |b| <= MAX_MESSAGE_DATA
  {
    (if |Text(p)| < MAX_MESSAGE_DATA then Text(p) else Text(p)[..MAX_MESSAGE_DATA - 1]) + [NUL]
  }

  /** The length the client announces: what `snprintf` would have printed, and the terminator. */
  function PrintedLength(p: Paths): nat {
    |Text(p)| + 1
  }

  predicate Fits(p: Paths) {
    PrintedLength(p) <= MAX_MESSAGE_DATA
  }

  /** The payload that is queued; `beyond` is what follows the data field where the length exceeds it. */
  function Payload(p: Paths, beyond: seq<Byte>): seq<Byte>
    requires |Printed(p)| + |beyond| == PrintedLength(p)
  {
    Printed(p) + beyond
  }

  // ---------- parsing ----------

  function CString(b: seq<Byte>): seq<Byte> {
    if b == [] || b[0] == NUL then [] else [b[0]] + CString(b[1..])
  }

  function Spaces(n: nat): seq<Byte> {
    seq(n, _ => SPACE)
  }

  function SkipSpaces(s: seq<Byte>): (t: seq<Byte>)
    ensures t == [] || t[0] != SPACE
    ensures |t| <= |s|
  {
    if s != [] && s[0] == SPACE then SkipSpaces(s[1..]) else s
  }

  function TakeToken(s: seq<Byte>): (t: seq<Byte>)
    ensures t <= s
    ensures SPACE !in t
    ensures s != [] && s[0] != SPACE ==> t != []
    ensures |t| < |s| ==> s[|t|] == SPACE
  {
    if s == [] || s[0] == SPACE then [] else [s[0]] + TakeToken(s[1..])
  }

  datatype Token = NoToken | Token(text: seq<Byte>, rest: seq<Byte>)

  /** One call of strtok: the token, and where the next call continues (past the delimiter). */
  function NextToken(s: seq<Byte>): (t: Token)
    ensures t.Token? ==> IsToken(t.text) && |t.text| <= |s|
    ensures t.Token? && t.rest != [] ==> |t.text| + 1 + |t.rest| <= |s|
  {
    var from := SkipSpaces(s);
    if from == [] then NoToken
    else
      var text := TakeToken(from);
      Token(text, AfterDelimiter(from[|text|..]))
  }

  function AfterDelimiter(tail: seq<Byte>): seq<Byte> {
    if tail == [] then [] else tail[1..]
  }

  /** The two paths the server extracts from a request payload, if it finds two tokens. */
  function ParseRequest(data: seq<Byte>): (r: Option<Paths>)
    ensures r.Some? ==> IsToken(r.value.source) && IsToken(r.value.destination)
    ensures r.Some? ==> |Text(r.value)| <= |CString(data)|
  {
    var first := NextToken(CString(data));
    if first.NoToken? then None
    else
      var second := NextToken(first.rest);
      if second.NoToken? then None else Some(Paths(first.text, second.text))
  }

  /** `p` are the first two maximal runs of non-spaces in `text`; whatever follows them starts with a space. */
  ghost predicate FirstTwoTokens(text: seq<Byte>, p: Paths) {
    && IsToken(p.source) && IsToken(p.destination)
    && exists a: nat, b: nat, tail: seq<Byte> :: SplitsAs(text, p, a, b, tail)
  }

  predicate SplitsAs(text: seq<Byte>, p: Paths, a: nat, b: nat, tail: seq<Byte>) {
    && text == Spaces(a) + p.source + [SPACE] + Spaces(b) + p.destination + tail
    && (tail == [] || tail[0] == SPACE)
  }

  lemma {:induction false} SkipSpacesSplits(s: seq<Byte>)
    ensures s == Spaces(|s| - |SkipSpaces(s)|) + SkipSpaces(s)
  {
    if s == [] || s[0] != SPACE {
    } else {
      SkipSpacesSplits(s[1..]);
      assert s == [SPACE] + s[1..];
    }
  }

  lemma {:induction false} SkipSpacesOf(n: nat, t: seq<Byte>)
    requires t == [] || t[0] != SPACE
    ensures SkipSpaces(Spaces(n) + t) == t
    decreases n
  {
    if n == 0 {
      assert Spaces(0) + t == t;
    } else {
      assert (Spaces(n) + t)[1..] == Spaces(n - 1) + t;
      SkipSpacesOf(n - 1, t);
    }
  }

  lemma {:induction false} TokenStops(t: seq<Byte>, tail: seq<Byte>)
    requires SPACE !in t
    requires tail == [] || tail[0] == SPACE
    ensures TakeToken(t + tail) == t
  {
    if t == [] {
      assert t + tail == tail;
    } else {
      assert (t + tail)[1..] == t[1..] + tail;
      TokenStops(t[1..], tail);
    }
  }

  lemma NextTokenOf(n: nat, t: seq<Byte>, tail: seq<Byte>)
    requires IsToken(t)
    requires tail == [] || tail[0] == SPACE
    ensures NextToken(Spaces(n) + t + tail) == Token(t, AfterDelimiter(tail))
  {
    Regroup(Spaces(n), t, tail);
    assert (t + tail)[0] == t[0];
    SkipSpacesOf(n, t + tail);
    TokenStops(t, tail);
    assert (t + tail)[|t|..] == tail;
  }

  lemma NextTokenSplits(s: seq<Byte>)
    requires NextToken(s).Token?
    ensures var t := NextToken(s);
            var n, from := |s| - |SkipSpaces(s)|, SkipSpaces(s);
            var tail := from[|t.text|..];
            && s == Spaces(n) + t.text + tail
            && (tail == [] || tail[0] == SPACE) && t.rest == AfterDelimiter(tail)
  {
    SkipSpacesSplits(s);
    var from, t := SkipSpaces(s), NextToken(s);
    assert from == t.text + from[|t.text|..];
    Regroup(Spaces(|s| - |from|), t.text, from[|t.text|..]);
  }

  /** The server finds exactly the first two tokens of the C string, and nothing if there are not two. */
  lemma ParseRequestIff(data: seq<Byte>, p: Paths)
    ensures ParseRequest(data) == Some(p) <==> FirstTwoTokens(CString(data), p)
  {
    var text := CString(data);
    if FirstTwoTokens(text, p) {
      var a: nat, b: nat, tail: seq<Byte> :| SplitsAs(text, p, a, b, tail);
      TwoTokensOf(text, p, a, b, tail);
    }
    if ParseRequest(data) == Some(p) {
      SplitOfTokens(text, p);
    }
  }

  lemma TwoTokensOf(text: seq<Byte>, p: Paths, a: nat, b: nat, tail: seq<Byte>)
    requires IsToken(p.source) && IsToken(p.destination) && SplitsAs(text, p, a, b, tail)
    ensures var first := NextToken(text);
            first.Token? && first.text == p.source
            && NextToken(first.rest) == Token(p.destination, AfterDelimiter(tail))
  {
    var rest := Spaces(b) + p.destination + tail;
    assert text == Spaces(a) + p.source + ([SPACE] + rest);
    NextTokenOf(a, p.source, [SPACE] + rest);
    assert ([SPACE] + rest)[1..] == rest;
    NextTokenOf(b, p.destination, tail);
  }

  lemma SplitOfTokens(text: seq<Byte>, p: Paths)
    requires NextToken(text).Token? && NextToken(text).text == p.source
    requires var second := NextToken(NextToken(text).rest);
             second.Token? && second.text == p.destination
    ensures FirstTwoTokens(text, p)
  {
    var rest := NextToken(text).rest;
    NextTokenSplits(text);
    NextTokenSplits(rest);
    var a, b := |text| - |SkipSpaces(text)|, |rest| - |SkipSpaces(rest)|;
    var delimited := SkipSpaces(text)[|p.source|..];
    var tail := SkipSpaces(rest)[|p.destination|..];
    assert delimited == [SPACE] + rest;
    Glue(Spaces(a) + p.source, [SPACE], Spaces(b), p.destination, tail);
    assert SplitsAs(text, p, a, b, tail);
  }

  lemma Glue(head: seq<Byte>, delimiter: seq<Byte>, gap: seq<Byte>, t: seq<Byte>, tail: seq<Byte>)
    ensures head + (delimiter + (gap + t + tail)) == head + delimiter + gap + t + tail
  {
  }

  // ---------- round trip ----------

  lemma {:induction false} CStringStops(s: seq<Byte>, tail: seq<Byte>)
    requires IsCString(s)
    ensures CString(s + [NUL] + tail) == s
  {
    var b := s + [NUL] + tail;
    if s == [] {
    } else {
      assert b[1..] == s[1..] + [NUL] + tail;
      CStringStops(s[1..], tail);
    }
  }

  /**
   The server recovers the two paths the client printed if and only if both are non-empty and
   contain no space, and the text fits the data field with its terminator.  What lies behind
   the data field, and is sent when the text does not fit, makes no difference.
   */
  lemma RequestRoundTripIff(p: Paths, beyond: seq<Byte>)
    requires IsCString(p.source) && IsCString(p.destination)
    requires |Printed(p)| + |beyond| == PrintedLength(p)
    ensures ParseRequest(Payload(p, beyond)) == Some(p) <==>
            IsToken(p.source) && IsToken(p.destination) && Fits(p)
  {
    var kept := Printed(p)[..|Printed(p)| - 1];
    assert kept <= Text(p) && Printed(p) == kept + [NUL];
    CStringStops(kept, beyond);
    if IsToken(p.source) && IsToken(p.destination) && Fits(p) {
      assert Text(p) == Spaces(0) + p.source + [SPACE] + Spaces(0) + p.destination + [];
      assert SplitsAs(kept, p, 0, 0, []);
      ParseRequestIff(Payload(p, beyond), p);
    }
  }
}
