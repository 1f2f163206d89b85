/**
 Framing of mesh messages (layer1/mesh_protocol.go:13-45, 125-183): a ten-byte header with magic,
 version, type and a big-endian payload length, then the payload.
 */
module MeshProtocol {
  import opened Common

  const MAGIC: seq<byte> := [0xA1, 0xAA, 0xBB, 0xCC]
  const VERSION: byte := 1
  const HEADER_LENGTH: nat := 10
  const TWO_TO_THE_32: nat := 0x1_0000_0000

  datatype Message = Message(msgType: byte, payload: seq<byte>)

  datatype ReadError = HeaderTruncated | BadMagic | VersionMismatch(got: byte) | PayloadTruncated

  /** `rest` is what is left on the connection; a failed read has used up part of it. */
  datatype ReadResult = Received(message: Message, rest: seq<byte>) | Failed(error: ReadError, rest: seq<byte>)

  // ---------- Lengths ----------

  /** The length as a `uint32`: what does not fit is cut off. */
  function LengthBytes(n: nat): (r: seq<byte>)
    ensures |r| == 4
  {
    var m := n % TWO_TO_THE_32;
    [(m / 0x100_0000) as byte, (m / 0x1_0000 % 0x100) as byte, (m / 0x100 % 0x100) as byte, (m % 0x100) as byte]
  }

  function LengthOf(b: seq<byte>): nat
    requires |b| == 4
  {
    b[0] as int * 0x100_0000 + b[1] as int * 0x1_0000 + b[2] as int * 0x100 + b[3] as int
  }

  lemma LengthRoundTrip(n: nat)
    ensures LengthOf(LengthBytes(n)) == n % TWO_TO_THE_32
  {
    Digits(n % TWO_TO_THE_32);
  }

  lemma Digits(m: nat)
    ensures m == m / 0x100_0000 * 0x100_0000 + m / 0x1_0000 % 0x100 * 0x1_0000 + m / 0x100 % 0x100 * 0x100 + m % 0x100
  {
    var a := m / 0x100;
    var b := a / 0x100;
    assert m / 0x1_0000 == b && m / 0x100_0000 == b / 0x100;
    assert m == a * 0x100 + m % 0x100;
    assert a == b * 0x100 + a % 0x100;
    assert b == b / 0x100 * 0x100 + b % 0x100;
  }

  lemma LengthBytesRoundTrip(b: seq<byte>)
    requires |b| == 4
    ensures LengthOf(b) < TWO_TO_THE_32 && LengthBytes(LengthOf(b)) == b
  {
    var b0, b1, b2, b3 := b[0] as int, b[1] as int, b[2] as int, b[3] as int;
    var m := LengthOf(b);
    Digit(b0 * 0x1_0000 + b1 * 0x100 + b2, b3);
    Digit(b0 * 0x100 + b1, b2);
    Digit(b0, b1);
    assert m / 0x100 == b0 * 0x1_0000 + b1 * 0x100 + b2;
    assert m / 0x1_0000 == b0 * 0x100 + b1;
    assert m / 0x100_0000 == b0;
  }

  lemma Digit(high: nat, low: nat)
    requires low < 0x100
    ensures (high * 0x100 + low) / 0x100 == high && (high * 0x100 + low) % 0x100 == low
  {
  }

  /** Big-endian: the greater length has the greater byte where the two first differ. */
  lemma LengthsInOrder(m: nat, n: nat)
    requires m < n < TWO_TO_THE_32
    ensures InOrder(LengthBytes(m), LengthBytes(n))
  {
    hide LengthBytes, LengthOf, InOrder;
    LengthRoundTrip(m);
    LengthRoundTrip(n);
    BytesInOrder(LengthBytes(m), LengthBytes(n));
  }

  ghost predicate InOrder(a: seq<byte>, b: seq<byte>) {
    exists k :: 0 <= k < |a| && k < |b| && a[..k] == b[..k] && a[k] < b[k]
  }

  lemma BytesInOrder(a: seq<byte>, b: seq<byte>)
    requires |a| == |b| == 4 && LengthOf(a) < LengthOf(b)
    ensures InOrder(a, b)
  {
    if a[0] != b[0] {
      assert a[..0] == b[..0] && a[0] < b[0];
    } else if a[1] != b[1] {
      assert a[..1] == b[..1] && a[1] < b[1];
    } else if a[2] != b[2] {
      assert a[..2] == b[..2] && a[2] < b[2];
    } else {
      assert a[..3] == b[..3] && a[3] < b[3];
    }
  }

  // ---------- Printing and parsing ----------

  function Header(m: Message): (r: seq<byte>)
    ensures |r| == HEADER_LENGTH
  {
    MAGIC + [VERSION, m.msgType] + LengthBytes(|m.payload|)
  }

  function Encode(m: Message): seq<byte> {
    Header(m) + m.payload
  }

  function EncodeAll(ms: seq<Message>): seq<byte> {
    if ms == [] then [] else Encode(ms[0]) + EncodeAll(ms[1..])
  }

  function Parse(s: seq<byte>): ReadResult {
    if |s| < HEADER_LENGTH then Failed(HeaderTruncated, [])
    else if s[..4] != MAGIC then Failed(BadMagic, s[10..])
    else if s[4] != VERSION then Failed(VersionMismatch(s[4]), s[10..])
    else
      var n := LengthOf(s[6..10]);
      if |s| < HEADER_LENGTH + n then Failed(PayloadTruncated, [])
      else Received(Message(s[5], s[10..10 + n]), s[10 + n..])
  }

  lemma ParseShrinks(s: seq<byte>)
    ensures Parse(s).Received? ==> |Parse(s).rest| < |s|
  {
  }

  /** Reading until a read fails. */
  function ParseAll(s: seq<byte>): (seq<Message>, ReadError)
    decreases |s|
  {
    match Parse(s)
    case Failed(e, _) => ([], e)
    case Received(m, rest) => var (ms, e) := ParseAll(rest); ([m] + ms, e)
  }

  predicate Fits(m: Message) {
    |m.payload| < TWO_TO_THE_32
  }

  lemma HeaderParts(m: Message, tail: seq<byte>)
    ensures var s := Header(m) + tail;
      s[..4] == MAGIC && s[4] == VERSION && s[5] == m.msgType && s[6..10] == LengthBytes(|m.payload|) && s[10..] == tail
  {
    var h := Header(m);
    assert h[..4] == MAGIC && h[6..10] == LengthBytes(|m.payload|);
  }

  /** The frame byte by byte: magic, version 1, type, and the length with its ones in the last place. */
  lemma FrameLayout(m: Message)
    requires |m.payload| < 256
    ensures Encode(m) == [0xA1, 0xAA, 0xBB, 0xCC, 1, m.msgType, 0, 0, 0, |m.payload| as byte] + m.payload
  {
    assert LengthBytes(|m.payload|) == [0, 0, 0, |m.payload| as byte];
  }

  /** A message that fits is read back whatever follows it. */
  lemma ParseEncode(m: Message, rest: seq<byte>)
    requires Fits(m)
    ensures Parse(Encode(m) + rest) == Received(m, rest)
  {
    hide Header, LengthOf, LengthBytes, Parse;
    var s := Encode(m) + rest;
    assert s == Header(m) + (m.payload + rest);
    HeaderParts(m, m.payload + rest);
    LengthRoundTrip(|m.payload|);
    ParseParts(s, m, rest);
  }

  lemma ParseParts(s: seq<byte>, m: Message, rest: seq<byte>)
    requires |s| >= HEADER_LENGTH && s[..4] == MAGIC && s[4] == VERSION && s[5] == m.msgType
    requires LengthOf(s[6..10]) == |m.payload| && s[10..] == m.payload + rest
    ensures Parse(s) == Received(m, rest)
  {
    hide LengthOf;
    var n := |m.payload|;
    assert s[10..10 + n] == s[10..][..n] == m.payload;
    assert s[10 + n..] == s[10..][n..] == rest;
  }

  /** A message survives the wire if and only if its length fits 32 bits; else only part of it is read. */
  lemma RoundTripIff(m: Message)
    ensures Parse(Encode(m)) == Received(m, []) <==> Fits(m)
    ensures !Fits(m) ==> Parse(Encode(m)).Received? && |Parse(Encode(m)).message.payload| < |m.payload|
  {
    if Fits(m) {
      ParseEncode(m, []);
      assert Encode(m) + [] == Encode(m);
    } else {
      HeaderParts(m, m.payload);
      LengthRoundTrip(|m.payload|);
    }
  }

  /** Only the encoding of a message parses as that message. */
  lemma ParseCanonical(s: seq<byte>)
    requires Parse(s).Received?
    ensures s == Encode(Parse(s).message) + Parse(s).rest && Fits(Parse(s).message)
  {
    var n := LengthOf(s[6..10]);
    var m := Parse(s).message;
    LengthBytesRoundTrip(s[6..10]);
    assert |m.payload| == n;
    assert s[4..6] == [VERSION, m.msgType];
    assert s[..10] == s[..4] + s[4..6] + s[6..10] == Header(m);
    assert s == s[..10] + s[10..10 + n] + s[10 + n..];
  }

  lemma {:induction false} StreamRoundTrip(ms: seq<Message>)
    requires forall i :: 0 <= i < |ms| ==> Fits(ms[i])
    ensures ParseAll(EncodeAll(ms)) == (ms, HeaderTruncated)
  {
    if ms != [] {
      StreamRoundTrip(ms[1..]);
      ParseEncode(ms[0], EncodeAll(ms[1..]));
      assert [ms[0]] + ms[1..] == ms;
    }
  }

  /** Whatever is read from a stream, the stream begins with exactly its encoding. */
  lemma {:induction false} StreamCanonical(s: seq<byte>) returns (rest: seq<byte>)
    ensures s == EncodeAll(ParseAll(s).0) + rest && Parse(rest).Failed? && Parse(rest).error == ParseAll(s).1
    decreases |s|
  {
    hide Parse, Encode, Fits;
    if Parse(s).Received? {
      ParseCanonical(s);
      ParseShrinks(s);
      rest := StreamCanonical(Parse(s).rest);
      var ms := ParseAll(Parse(s).rest).0;
      assert ([Parse(s).message] + ms)[1..] == ms;
      assert Encode(Parse(s).message) + (EncodeAll(ms) + rest) == Encode(Parse(s).message) + EncodeAll(ms) + rest;
    } else {
      rest := s;
    }
  }

  /** How many leading messages lie within the first `k` bytes of their stream. */
  function Complete(ms: seq<Message>, k: nat): (r: nat)
    ensures r <= |ms|
  {
    if ms == [] || k < |Encode(ms[0])| then 0 else 1 + Complete(ms[1..], k - |Encode(ms[0])|)
  }

  /** A stream cut off after `k` bytes yields its complete messages, in order, and then an error. */
  lemma {:induction false} TruncatedStream(ms: seq<Message>, k: nat)
    requires forall i :: 0 <= i < |ms| ==> Fits(ms[i])
    requires k <= |EncodeAll(ms)|
    ensures var (read, e) := ParseAll(EncodeAll(ms)[..k]);
      read == ms[..Complete(ms, k)] && (e == HeaderTruncated || e == PayloadTruncated)
  {
    hide Parse, Encode;
    if ms != [] {
      var first, tail := Encode(ms[0]), EncodeAll(ms[1..]);
      var s := EncodeAll(ms)[..k];
      if k < |first| {
        assert s == first[..k];
        CutMessage(ms[0], k);
        assert Parse(s).Failed?;
      } else {
        assert s == first + tail[..k - |first|];
        ParseEncode(ms[0], tail[..k - |first|]);
        TruncatedStream(ms[1..], k - |first|);
        var c := Complete(ms[1..], k - |first|);
        assert [ms[0]] + ms[1..][..c] == ms[..c + 1];
      }
    } else {
      NothingToRead();
    }
  }

  /** `s` ends within a message: all of the header is there, and not all of the payload. */
  ghost predicate WithinMessage(s: seq<byte>) {
    exists m :: Fits(m) && HEADER_LENGTH <= |s| < |Encode(m)| && s == Encode(m)[..|s|]
  }

  /** Which error stands for what: the magic is looked at before the version, and both before the payload. */
  lemma FailuresMean(s: seq<byte>)
    ensures Parse(s).Failed? && Parse(s).error == HeaderTruncated <==> |s| < 10
    ensures Parse(s).Failed? && Parse(s).error == BadMagic <==> |s| >= 10 && !(MAGIC <= s)
    ensures forall got :: Parse(s).Failed? && Parse(s).error == VersionMismatch(got) <==>
      |s| >= 10 && MAGIC <= s && s[4] == got && got != 1
    ensures Parse(s).Failed? && Parse(s).error == PayloadTruncated <==> WithinMessage(s)
  {
    assert |s| >= 10 ==> (s[..4] == MAGIC <==> MAGIC <= s);
    if WithinMessage(s) {
      WithinIsTruncated(s);
    } else if Parse(s).Failed? && Parse(s).error == PayloadTruncated {
      TruncatedIsWithin(s);
    }
  }

  lemma WithinIsTruncated(s: seq<byte>)
    requires WithinMessage(s)
    ensures |s| >= 10 && Parse(s).Failed? && Parse(s).error == PayloadTruncated
  {
    hide Encode, Parse;
    var m :| Fits(m) && HEADER_LENGTH <= |s| < |Encode(m)| && s == Encode(m)[..|s|];
    CutMessage(m, |s|);
  }

  lemma TruncatedIsWithin(s: seq<byte>)
    requires |s| >= 10 && MAGIC <= s && s[4] == VERSION && |s| < HEADER_LENGTH + LengthOf(s[6..10])
    ensures WithinMessage(s)
  {
    var n := LengthOf(s[6..10]);
    LengthBytesRoundTrip(s[6..10]);
    var m := Message(s[5], s[10..] + seq(n - (|s| - 10), i => 0 as byte));
    assert |m.payload| == n;
    assert s[..10] == MAGIC + [s[4], s[5]] + s[6..10] == Header(m);
    assert Encode(m)[..|s|] == s[..10] + s[10..] == s;
  }

  lemma NothingToRead()
    ensures Parse([]) == Failed(HeaderTruncated, [])
  {
  }

  lemma CutMessage(m: Message, k: nat)
    requires Fits(m) && k < |Encode(m)|
    ensures var r := Parse(Encode(m)[..k]);
      r.Failed? && r.error == if k < HEADER_LENGTH then HeaderTruncated else PayloadTruncated
  {
    if k >= HEADER_LENGTH {
      var s := Encode(m)[..k];
      assert s == Header(m) + m.payload[..k - 10];
      HeaderParts(m, m.payload[..k - 10]);
      LengthRoundTrip(|m.payload|);
    }
  }

  // ---------- Connections ----------

  /** `room` is the number of bytes that can still be written before the connection breaks. */
  class Conn {
    var incoming: seq<byte>
    var outgoing: seq<byte>
    var room: nat

    /** Writes the data, or as much of it as goes out. */
    method Put(data: seq<byte>) returns (ok: bool)
      modifies this`outgoing, this`room
      ensures ok <==> |data| <= old(room)
      ensures outgoing == old(outgoing) + data[..Min(old(room), |data|)] && room == old(room) - Min(old(room), |data|)
    {
      var n := Min(room, |data|);
      outgoing, room := outgoing + data[..n], room - n;
      return n == |data|;
    }

    /** Reads `n` bytes, or uses up what there is. */
    method Take(n: nat) returns (data: Option<seq<byte>>)
      modifies this`incoming
      ensures if n <= |old(incoming)| then data == Some(old(incoming)[..n]) && incoming == old(incoming)[n..]
              else data == None && incoming == []
    {
      if n <= |incoming| {
        data := Some(incoming[..n]);
        incoming := incoming[n..];
      } else {
        data := None;
        incoming := [];
      }
    }
  }

  /** What goes out for a message while there is room for `room` bytes. */
  function Sent(msgType: byte, payload: Option<seq<byte>>, room: nat): seq<byte> {
    if payload.None? then []
    else
      var bytes := Encode(Message(msgType, payload.value));
      bytes[..Min(room, |bytes|)]
  }

  /**
   `payload` is the encoded payload, if encoding succeeds. A connection that breaks has taken a
   prefix of the message; the write succeeds if and only if it has taken all of it.
   */
  method WriteMessage(conn: Conn, msgType: byte, payload: Option<seq<byte>>) returns (ok: bool)
    modifies conn`outgoing, conn`room
    ensures conn.outgoing == old(conn.outgoing) + Sent(msgType, payload, old(conn.room))
    ensures ok <==> payload.Some? && Sent(msgType, payload, old(conn.room)) == Encode(Message(msgType, payload.value))
    ensures conn.room == old(conn.room) - |Sent(msgType, payload, old(conn.room))|
  {
    if payload.None? {
      return false;
    }
    ghost var room, bytes := conn.room, Encode(Message(msgType, payload.value));
    var header := MAGIC + [VERSION, msgType] + LengthBytes(|payload.value|);
    assert bytes == header + payload.value;
    ok := conn.Put(header);
    if !ok {
      assert bytes[..room] == header[..room];
      return;
    }
    assert bytes[..Min(room, |bytes|)] == header + payload.value[..Min(room - |header|, |payload.value|)];
    ok := conn.Put(payload.value);
  }

  method ReadMessage(conn: Conn) returns (r: Option<Message>, error: Option<ReadError>)
    modifies conn`incoming
    ensures match Parse(old(conn.incoming))
            case Received(m, rest) => r == Some(m) && error == None && conn.incoming == rest
            case Failed(e, rest) => r == None && error == Some(e) && conn.incoming == rest
  {
    ghost var s := conn.incoming;
    var header := conn.Take(HEADER_LENGTH);
    if header.None? {
      return None, Some(HeaderTruncated);
    }
    var h := header.value;
    assert h[..4] == s[..4] && h[6..10] == s[6..10];
    if h[..4] != MAGIC {
      return None, Some(BadMagic);
    }
    if h[4] != VERSION {
      return None, Some(VersionMismatch(h[4]));
    }
    var n := LengthOf(h[6..10]);
    if n == 0 {
      assert s[10..10 + n] == [] && s[10 + n..] == s[10..];
      return Some(Message(h[5], [])), None;
    }
    var payload := conn.Take(n);
    if payload.None? {
      return None, Some(PayloadTruncated);
    }
    assert s[10..][..n] == s[10..10 + n] && s[10..][n..] == s[10 + n..];
    return Some(Message(h[5], payload.value)), None;
  }

  /** Serves a connection: reads until a read fails. */
  method ReadAll(conn: Conn) returns (messages: seq<Message>, error: ReadError)
    modifies conn`incoming
    ensures (messages, error) == ParseAll(old(conn.incoming))
  {
    hide Parse;
    messages := [];
    ghost var all := ParseAll(conn.incoming);
    while true
      invariant messages + ParseAll(conn.incoming).0 == all.0 && ParseAll(conn.incoming).1 == all.1
      decreases |conn.incoming|
    {
      ghost var s := conn.incoming;
      ParseShrinks(s);
      var m, e := ReadMessage(conn);
      if m.None? {
        assert messages + [] == messages;
        return messages, e.value;
      }
      messages := messages + [m.value];
    }
  }
}
