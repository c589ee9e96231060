/** The wire layout of nsqd's frames ("Data Format" in the NSQ TCP Protocol Spec) and a one-shot parser. */
module Frames {
  import opened Bytes
  import opened Lists

  const RESPONSE := 0
  const MESSAGE := 2

  /** Frame type, timestamp, attempts and message id come before the body of a message frame. */
  const MESSAGE_PREFIX := 30

  const MAX_FRAME := 0x8000_0000

  const OK: bytes := [0x4F, 0x4B]  // "OK"
  const HEARTBEAT: bytes := [0x5F, 0x68, 0x65, 0x61, 0x72, 0x74, 0x62, 0x65, 0x61, 0x74, 0x5F]  // "_heartbeat_"
  const CLOSE_WAIT: bytes := [0x43, 0x4C, 0x4F, 0x53, 0x45, 0x5F, 0x57, 0x41, 0x49, 0x54]  // "CLOSE_WAIT"

  /** emalloc never returns a block of fewer than eight bytes. */
  const SMALLEST_BLOCK := 8

  /** The length of the block for a frame of that size and a NUL. */
  function Block(size: nat): nat {
    if size + 1 < SMALLEST_BLOCK then SMALLEST_BLOCK else size + 1
  }

  // ----- streams of frames; a frame here is what follows its size -----

  function Wire(f: bytes): bytes {
    BigEndian(|f|, 4) + f
  }

  function Stream(fs: seq<bytes>): bytes {
    if fs == [] then [] else Wire(fs[0]) + Stream(fs[1..])
  }

  /** The number a frame's size, or its type, is read from. */
  function Head(s: bytes): nat
    requires |s| >= 4
  {
    U32(s, 0)
  }

  predicate HasFrame(s: bytes) {
    |s| >= 4 && 4 <= Head(s) <= |s| - 4
  }

  datatype Parsed = Parsed(frames: seq<bytes>, rest: bytes)

  /** All complete frames of s, and the bytes after the last one. */
  function Parse(s: bytes): Parsed
    decreases |s|
  {
    if HasFrame(s) then
      var n := 4 + Head(s);
      var p := Parse(s[n..]);
      Parsed([s[4..n]] + p.frames, p.rest)
    else
      Parsed([], s)
  }

  /** The frames readcb has a branch for. */
  predicate Handled(f: bytes) {
    && 4 <= |f| < MAX_FRAME
    && (Head(f) == RESPONSE || (Head(f) == MESSAGE && |f| >= MESSAGE_PREFIX))
  }

  /** s can be the beginning of a stream of handled frames, as far as it can be judged. */
  predicate WellFormed(s: bytes)
    decreases |s|
  {
    if HasFrame(s) then
      var n := 4 + Head(s);
      Handled(s[4..n]) && WellFormed(s[n..])
    else if |s| >= 4 then 4 <= Head(s) < MAX_FRAME
    else |s| > 0 ==> s[0] < 128
  }

  // ----- contents of frames -----

  datatype Message = Message(timestamp: int, attempts: nat, id: bytes, body: bytes)

  predicate ValidMessage(m: Message) {
    && IsInt64(m.timestamp)
    && m.attempts < 0x1_0000
    && |m.id| == 16
    && MESSAGE_PREFIX + |m.body| < MAX_FRAME
  }

  function EncodeMessage(m: Message): bytes
    requires ValidMessage(m)
  {
    Widths();
    BigEndian(MESSAGE, 4) + BigEndian(AsPattern(m.timestamp, 64), 8) + BigEndian(m.attempts, 2) + m.id + m.body
  }

  predicate IsMessage(f: bytes) {
    Handled(f) && Head(f) == MESSAGE
  }

  /** The offsets readcb reads the fields from. */
  function DecodeMessage(f: bytes): Message
    requires IsMessage(f)
  {
    Message(AsSigned(U64(f, 4), 64), U16(f, 12), f[14..30], f[30..])
  }

  function EncodeResponse(text: bytes): bytes {
    BigEndian(RESPONSE, 4) + text
  }

  /** readcb tells a heartbeat from the other responses by its size alone. */
  predicate IsHeartbeat(f: bytes) {
    |f| == 15 && Head(f) == RESPONSE
  }

  /** The messages among the frames, in order. */
  function Messages(fs: seq<bytes>): seq<Message> {
    Collect(MessageOf, fs)
  }

  function MessageOf(f: bytes): seq<Message> {
    if IsMessage(f) then [DecodeMessage(f)] else []
  }

  function Heartbeats(fs: seq<bytes>): nat {
    |Collect(HeartbeatOf, fs)|
  }

  function HeartbeatOf(f: bytes): seq<bytes> {
    if IsHeartbeat(f) then [f] else []
  }

  // ----- the parser and the encoder are inverse -----

  lemma HeadOf(v: nat, tail: bytes)
    requires v < MAX_FRAME
    ensures Head(BigEndian(v, 4) + tail) == v
  {
    U32BigEndian(v, tail);
  }

  lemma HeadDigits(s: bytes)
    requires |s| >= 4
    ensures BigEndian(Head(s), 4) == s[..4]
    ensures Head(s) < MAX_FRAME <==> s[0] < 128
  {
    BigEndianU32(s[..4]);
  }

  /** One frame in front of any bytes. */
  lemma ParseWire(f: bytes, tail: bytes)
    requires 4 <= |f| < MAX_FRAME
    ensures Parse(Wire(f) + tail) == Parsed([f] + Parse(tail).frames, Parse(tail).rest)
    ensures WellFormed(Wire(f) + tail) <==> Handled(f) && WellFormed(tail)
  {
    var s := Wire(f) + tail;
    assert s == BigEndian(|f|, 4) + (f + tail);
    HeadOf(|f|, f + tail);
    assert s[4..4 + |f|] == f;
    assert s[4 + |f|..] == tail;
  }

  lemma ParseOne(f: bytes)
    requires Handled(f)
    ensures Parse(Wire(f)) == Parsed([f], []) && WellFormed(Wire(f))
  {
    ParseWire(f, []);
    assert Wire(f) + [] == Wire(f);
  }

  /** The first frame of s, written again, is what s begins with. */
  lemma WireHead(s: bytes)
    requires HasFrame(s)
    ensures s == Wire(s[4..4 + Head(s)]) + s[4 + Head(s)..]
  {
    HeadDigits(s);
  }

  lemma {:induction false} ParseStream(fs: seq<bytes>)
    requires forall f :: f in fs ==> Handled(f)
    ensures Parse(Stream(fs)) == Parsed(fs, []) && WellFormed(Stream(fs))
  {
    if fs == [] {
    } else {
      assert Handled(fs[0]);
      ParseStream(fs[1..]);
      ParseWire(fs[0], Stream(fs[1..]));
      assert fs == [fs[0]] + fs[1..];
    }
  }

  lemma ParseCons(s: bytes, f: bytes, tail: bytes)
    requires HasFrame(s) && f == s[4..4 + Head(s)] && tail == s[4 + Head(s)..]
    ensures Parse(s) == Parsed([f] + Parse(tail).frames, Parse(tail).rest)
  {
  }

  lemma StreamCons(f: bytes, fs: seq<bytes>)
    ensures Stream([f] + fs) == Wire(f) + Stream(fs)
  {
    assert ([f] + fs)[1..] == fs;
  }

  lemma {:induction false} StreamParse(s: bytes)
    ensures Stream(Parse(s).frames) + Parse(s).rest == s
    ensures !HasFrame(Parse(s).rest)
    decreases |s|
  {
    if HasFrame(s) {
      var f, tail := s[4..4 + Head(s)], s[4 + Head(s)..];
      StreamParse(tail);
      ParseCons(s, f, tail);
      WireHead(s);
      StreamCons(f, Parse(tail).frames);
      assert Wire(f) + Stream(Parse(tail).frames) + Parse(tail).rest == Wire(f) + tail;
    } else {
      assert Parse(s) == Parsed([], s);
      assert Stream([]) + s == s;
    }
  }

  /** A stream is well formed when its complete frames are handled and its rest may still become one. */
  lemma {:induction false} WellFormedParts(s: bytes)
    ensures WellFormed(s) <==> (forall f :: f in Parse(s).frames ==> Handled(f)) && WellFormed(Parse(s).rest)
    decreases |s|
  {
    if HasFrame(s) {
      WellFormedParts(s[4 + Head(s)..]);
    }
  }

  lemma FirstFrame(a: bytes, b: bytes)
    requires HasFrame(a)
    ensures HasFrame(a + b) && Head(a + b) == Head(a)
    ensures (a + b)[4..4 + Head(a)] == a[4..4 + Head(a)] && (a + b)[4 + Head(a)..] == a[4 + Head(a)..] + b
  {
  }

  lemma WellFormedCons(s: bytes, f: bytes, tail: bytes)
    requires HasFrame(s) && f == s[4..4 + Head(s)] && tail == s[4 + Head(s)..]
    ensures WellFormed(s) <==> Handled(f) && WellFormed(tail)
  {
  }

  /** Bytes may arrive in two pieces: parsing resumes from the unfinished rest. */
  lemma {:induction false} ParseAppend(a: bytes, b: bytes)
    ensures Parse(a + b) == Parsed(Parse(a).frames + Parse(Parse(a).rest + b).frames, Parse(Parse(a).rest + b).rest)
    decreases |a|
  {
    hide Head;
    if HasFrame(a) {
      var f, t := a[4..4 + Head(a)], a[4 + Head(a)..];
      ParseAppend(t, b);
      FirstFrame(a, b);
      ParseCons(a, f, t);
      ParseCons(a + b, f, t + b);
      assert Parse(a).rest == Parse(t).rest;
    } else {
      assert Parse(a) == Parsed([], a);
    }
  }

  lemma {:induction false} WellFormedAppend(a: bytes, b: bytes)
    ensures WellFormed(a + b) <==> WellFormed(a) && WellFormed(Parse(a).rest + b)
    decreases |a|
  {
    if HasFrame(a) {
      var f, t := a[4..4 + Head(a)], a[4 + Head(a)..];
      WellFormedAppend(t, b);
      FirstFrame(a, b);
      ParseCons(a, f, t);
      WellFormedCons(a, f, t);
      WellFormedCons(a + b, f, t + b);
    } else if WellFormed(a + b) {
      PartialWellFormed(a, b);
    }
  }

  lemma PartialWellFormed(a: bytes, b: bytes)
    requires !HasFrame(a) && WellFormed(a + b)
    ensures WellFormed(a)
  {
    if 0 < |a| < 4 && |a + b| >= 4 {
      HeadDigits(a + b);
    }
  }

  // ----- the fields of a message survive encoding and decoding -----

  lemma MessageParts(m: Message, f: bytes)
    requires ValidMessage(m) && f == EncodeMessage(m)
    ensures |f| == MESSAGE_PREFIX + |m.body| && f[14..30] == m.id && f[30..] == m.body
    ensures 0 <= m.timestamp + Pow2(63) < Pow2(64)
    ensures f[..4] == BigEndian(MESSAGE, 4) && f[12..14] == BigEndian(m.attempts, 2)
    ensures f[4..12] == BigEndian(AsPattern(m.timestamp, 64), 8)
  {
    Widths();
    hide BigEndian, Pow2, AsPattern;
    var kind, stamp, tail := BigEndian(MESSAGE, 4), BigEndian(AsPattern(m.timestamp, 64), 8), m.id + m.body;
    assert f == kind + (stamp + (BigEndian(m.attempts, 2) + tail));
  }

  lemma DecodeEncode(m: Message)
    requires ValidMessage(m)
    ensures IsMessage(EncodeMessage(m)) && DecodeMessage(EncodeMessage(m)) == m
    ensures |EncodeMessage(m)| == MESSAGE_PREFIX + |m.body|
  {
    Widths();
    var f, stamp := EncodeMessage(m), AsPattern(m.timestamp, 64);
    MessageParts(m, f);
    U32BigEndian(MESSAGE, []);
    U64BigEndian(stamp, []);
    U16BigEndian(m.attempts, []);
  }

  /** No two message frames decode to the same message: decoding loses nothing. */
  lemma EncodeDecode(f: bytes)
    requires IsMessage(f)
    ensures ValidMessage(DecodeMessage(f)) && EncodeMessage(DecodeMessage(f)) == f
  {
    Widths();
    hide BigEndian;
    BigEndianU32(f[..4]);
    BigEndianU64(f[4..12]);
    BigEndianU16(f[12..14]);
    assert f == f[..4] + f[4..12] + f[12..14] + f[14..30] + f[30..];
  }

  lemma EncodedResponse(text: bytes)
    requires 4 + |text| < MAX_FRAME
    ensures Handled(EncodeResponse(text)) && Head(EncodeResponse(text)) == RESPONSE
    ensures EncodeResponse(text)[4..] == text
    ensures IsHeartbeat(EncodeResponse(text)) <==> |text| == 11
  {
    HeadOf(RESPONSE, text);
  }

  /** A frame on the wire, and the two kinds readcb has work for, byte by byte. */
  lemma FrameBytes(f: bytes)
    requires 4 <= |f| < MAX_FRAME
    ensures var n := |f|;
            Wire(f) == [(n / 0x100_0000) as byte, (n / 0x1_0000 % 0x100) as byte,
                        (n / 0x100 % 0x100) as byte, (n % 0x100) as byte] + f
    ensures IsMessage(f) <==> |f| >= 30 && f[..4] == [0, 0, 0, 2]
    ensures IsHeartbeat(f) <==> |f| == 15 && f[..4] == [0, 0, 0, 0]
    ensures Handled(f) <==> f[..4] == [0, 0, 0, 0] || (f[..4] == [0, 0, 0, 2] && |f| >= 30)
  {
    hide BigEndian;
    NetworkOrder(|f|);
  }

  /** The fields of a message, byte by byte. */
  lemma MessageBytes(f: bytes)
    requires IsMessage(f)
    ensures var m, high := DecodeMessage(f),
              0x100_0000 * f[4] as int + 0x1_0000 * f[5] as int + 0x100 * f[6] as int + f[7] as int;
            var low := 0x100_0000 * f[8] as int + 0x1_0000 * f[9] as int + 0x100 * f[10] as int + f[11] as int;
            && m.timestamp == 0x1_0000_0000 * (if f[4] < 128 then high else high - 0x1_0000_0000) + low
            && m.attempts == 0x100 * f[12] as int + f[13] as int
            && m.id == f[14..30] && m.body == f[30..]
  {
    Widths();
  }

  lemma MessagesAppend(a: seq<bytes>, b: seq<bytes>)
    ensures Messages(a + b) == Messages(a) + Messages(b)
    ensures Heartbeats(a + b) == Heartbeats(a) + Heartbeats(b)
  {
    CollectAppend(MessageOf, a, b);
    CollectAppend(HeartbeatOf, a, b);
  }
}
