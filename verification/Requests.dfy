/** The PUB and DPUB requests of pub.c: how they are laid out in the send buffer, and how they are read back. */
module Requests {
  import opened Bytes
  import opened Lists
  import opened Commands
  import opened Wrappers

  const PUB: bytes := [0x50, 0x55, 0x42]  // "PUB"
  const DPUB: bytes := [0x44, 0x50, 0x55, 0x42]  // "DPUB"

  const SEND_BUF_SIZE := 1024 * 1024

  datatype Request =
    | Pub(topic: bytes, body: bytes)
    | DeferredPub(topic: bytes, defer: int, body: bytes)

  function CommandLine(r: Request): bytes {
    match r
    case Pub(topic, _) => PUB + [SPACE] + topic
    case DeferredPub(topic, defer, _) => DPUB + [SPACE] + topic + [SPACE] + Decimal(defer)
  }

  function Encode(r: Request): bytes {
    CommandLine(r) + [NEWLINE] + BigEndian(|r.body|, 4) + r.body
  }

  function EncodeAll(rs: seq<Request>): bytes {
    Collect(Encode, rs)
  }

  predicate Valid(r: Request) {
    Word(r.topic) && |r.body| < 0x1_0000_0000 && (r.DeferredPub? ==> IsInt32(r.defer))
  }

  /** The requests of pub.c: names, spaces and line feeds in ASCII. */
  lemma RequestsAscii(topic: bytes, defer: int, body: bytes)
    ensures Encode(Pub(topic, body)) == [0x50, 0x55, 0x42, 0x20] + topic + [0x0A] + BigEndian(|body|, 4) + body
    ensures Encode(DeferredPub(topic, defer, body))
         == [0x44, 0x50, 0x55, 0x42, 0x20] + topic + [0x20] + Decimal(defer) + [0x0A] + BigEndian(|body|, 4) + body
  {
    hide BigEndian, Decimal;
    assert PUB + [SPACE] == [0x50, 0x55, 0x42, 0x20];
    assert CommandLine(Pub(topic, body)) == [0x50, 0x55, 0x42, 0x20] + topic;
    DeferredAscii(topic, defer, body);
  }

  lemma DeferredAscii(topic: bytes, defer: int, body: bytes)
    ensures Encode(DeferredPub(topic, defer, body))
         == [0x44, 0x50, 0x55, 0x42, 0x20] + topic + [0x20] + Decimal(defer) + [0x0A] + BigEndian(|body|, 4) + body
  {
    hide BigEndian, Decimal;
    assert DPUB + [SPACE] == [0x44, 0x50, 0x55, 0x42, 0x20];
    assert CommandLine(DeferredPub(topic, defer, body))
        == [0x44, 0x50, 0x55, 0x42, 0x20] + topic + [0x20] + Decimal(defer);
  }

  // ----- the send buffer -----

  /** memcpy or strncpy to &buf[ofs]. */
  method Put(buf: array<byte>, ofs: nat, data: bytes) returns (next: nat)
    requires ofs + |data| <= buf.Length
    modifies buf
    ensures next == ofs + |data| && buf[..next] == old(buf[..ofs]) + data
  {
    next := ofs + |data|;
    forall i | 0 <= i < |data| {
      buf[ofs + i] := data[i];
    }
  }

  /** strcpy or sprintf to &buf[ofs]: a NUL is written as well, but not counted. */
  method PutString(buf: array<byte>, ofs: nat, text: bytes) returns (next: nat)
    requires ofs + |text| < buf.Length
    modifies buf
    ensures next == ofs + |text| && buf[..next] == old(buf[..ofs]) + text
  {
    next := ofs + |text|;
    forall i | 0 <= i < |text| {
      buf[ofs + i] := text[i];
    }
    buf[next] := NUL;
  }

  method FillPub(topic: bytes, msg: bytes) returns (buf: array<byte>, ofs: nat)
    requires |Encode(Pub(CString(topic), msg))| <= SEND_BUF_SIZE
    ensures fresh(buf) && ofs <= buf.Length == SEND_BUF_SIZE
    ensures buf[..ofs] == Encode(Pub(CString(topic), msg))
  {
    hide BigEndian, CString;
    buf := new byte[SEND_BUF_SIZE];
    ofs := Put(buf, 0, PUB + [SPACE]);
    ofs := PutString(buf, ofs, CString(topic));
    assert buf[..ofs] == PUB + [SPACE] + CString(topic);
    ofs := Put(buf, ofs, [NEWLINE]);
    ofs := Put(buf, ofs, BigEndian(|msg|, 4));
    ofs := Put(buf, ofs, msg);
  }

  method FillDeferredPub(topic: bytes, msg: bytes, defer: int) returns (buf: array<byte>, ofs: nat)
    requires |Encode(DeferredPub(CString(topic), defer, msg))| <= SEND_BUF_SIZE
    ensures fresh(buf) && ofs <= buf.Length == SEND_BUF_SIZE
    ensures buf[..ofs] == Encode(DeferredPub(CString(topic), defer, msg))
  {
    hide Decimal, BigEndian, CString;
    buf := new byte[SEND_BUF_SIZE];
    ofs := Put(buf, 0, DPUB + [SPACE]);
    ofs := PutString(buf, ofs, CString(topic));
    ofs := Put(buf, ofs, [SPACE]);
    ofs := PutString(buf, ofs, Decimal(defer));
    assert buf[..ofs] == DPUB + [SPACE] + CString(topic) + [SPACE] + Decimal(defer);
    ofs := Put(buf, ofs, [NEWLINE]);
    ofs := Put(buf, ofs, BigEndian(|msg|, 4));
    ofs := Put(buf, ofs, msg);
  }

  // ----- reading requests back: bodies are taken by length, so they may hold any bytes -----

  datatype Split = Split(line: bytes, rest: bytes)

  function FirstLine(s: bytes): (r: Option<Split>)
    ensures r.Some? ==> |r.value.rest| < |s|
  {
    if s == [] then None
    else if s[0] == NEWLINE then Some(Split([], s[1..]))
    else
      match FirstLine(s[1..])
      case None => None
      case Some(Split(line, rest)) => Some(Split([s[0]] + line, rest))
  }

  function ReadHead(fields: seq<bytes>, body: bytes): Option<Request>
    requires fields != []
  {
    if fields[0] == PUB && |fields| == 2 then Some(Pub(fields[1], body))
    else if fields[0] == DPUB && |fields| == 3 then
      match ReadDecimal(fields[2])
      case None => None
      case Some(n) => Some(DeferredPub(fields[1], n, body))
    else None
  }

  function ReadRequests(s: bytes): Option<seq<Request>>
    decreases |s|
  {
    if s == [] then Some([])
    else
      match FirstLine(s)
      case None => None
      case Some(Split(line, rest)) =>
        if |rest| < 4 || |rest| - 4 < U32(rest, 0) then None
        else
          var end := 4 + U32(rest, 0);
          match ReadHead(Cut(line, SPACE), rest[4..end])
          case None => None
          case Some(r) =>
            match ReadRequests(rest[end..])
            case None => None
            case Some(rs) => Some([r] + rs)
  }

  lemma {:induction false} FirstLineOf(line: bytes, rest: bytes)
    requires NEWLINE !in line
    ensures FirstLine(line + [NEWLINE] + rest) == Some(Split(line, rest))
  {
    var s := line + [NEWLINE] + rest;
    if line == [] {
      assert s[1..] == rest;
    } else {
      FirstLineOf(line[1..], rest);
      assert s[1..] == line[1..] + [NEWLINE] + rest;
      assert [line[0]] + line[1..] == line;
    }
  }

  lemma ReadHeadInverse(r: Request)
    requires Valid(r)
    ensures NEWLINE !in CommandLine(r)
    ensures ReadHead(Cut(CommandLine(r), SPACE), r.body) == Some(r)
  {
    match r
    case Pub(topic, _) => Cut2(PUB, topic);
    case DeferredPub(topic, defer, _) =>
      DecimalInverse(defer);
      Cut3(DPUB, topic, Decimal(defer));
  }

  /** Reading one request leaves exactly what follows it. */
  lemma ReadOne(r: Request, tail: bytes)
    requires Valid(r)
    ensures ReadRequests(Encode(r) + tail)
         == match ReadRequests(tail) case None => None case Some(rs) => Some([r] + rs)
  {
    hide Cut, ReadHead, CommandLine, Valid, U32, FirstLine;
    var rest := BigEndian(|r.body|, 4) + r.body + tail;
    assert NEWLINE !in CommandLine(r) && |r.body| < 0x1_0000_0000 by { ReadHeadInverse(r); BodyBound(r); }
    assert Encode(r) + tail == CommandLine(r) + [NEWLINE] + rest;
    FirstLineOf(CommandLine(r), rest);
    assert rest == BigEndian(|r.body|, 4) + (r.body + tail);
    U32BigEndian(|r.body|, r.body + tail);
    var end := 4 + |r.body|;
    assert rest[4..end] == r.body && rest[end..] == tail;
    ReadHeadInverse(r);
  }

  lemma BodyBound(r: Request)
    requires Valid(r)
    ensures |r.body| < 0x1_0000_0000
  {
  }

  /** Any list of requests, concatenated, reads back as that list. */
  lemma {:induction false} RequestsRoundTrip(rs: seq<Request>)
    requires forall r :: r in rs ==> Valid(r)
    ensures ReadRequests(EncodeAll(rs)) == Some(rs)
  {
    if rs == [] {
    } else {
      assert Valid(rs[0]);
      RequestsRoundTrip(rs[1..]);
      ReadOne(rs[0], EncodeAll(rs[1..]));
      assert [rs[0]] + rs[1..] == rs;
    }
  }

  /** Different request lists never look alike on the wire. */
  lemma EncodeAllInjective(rs: seq<Request>, qs: seq<Request>)
    requires forall r :: r in rs ==> Valid(r)
    requires forall q :: q in qs ==> Valid(q)
    requires EncodeAll(rs) == EncodeAll(qs)
    ensures rs == qs
  {
    RequestsRoundTrip(rs);
    RequestsRoundTrip(qs);
  }
}
