/** publish and deferredPublish over a non-blocking socket: one request, then the exchange of Exchanges. */
module Publishers {
  import opened Bytes
  import opened Frames
  import opened Commands
  import opened Requests
  import opened Exchanges
  import Decoder

  /**
   * A connected non-blocking socket. `schedule` fixes how successive read calls turn out: negative would
   * block, 0 is end of file, and a positive number is how many bytes the kernel has ready at most.
   */
  class Socket {
    const fd: int
    var incoming: bytes
    var sent: bytes
    var schedule: seq<int>

    constructor (fd: int, incoming: bytes, schedule: seq<int>)
      ensures this.fd == fd && this.incoming == incoming && this.schedule == schedule && sent == []
    {
      this.fd, this.incoming, this.schedule, sent := fd, incoming, schedule, [];
    }

    method Read(dst: array<byte>, at: nat, n: nat) returns (k: int)
      requires schedule != [] && at + Ready(schedule[0], n, |incoming|) <= dst.Length
      modifies this`incoming, this`schedule, dst
      ensures schedule == old(schedule)[1..]
      ensures k == if old(schedule)[0] < 0 then -1 else Ready(old(schedule)[0], n, |old(incoming)|)
      ensures var m := Ready(old(schedule)[0], n, |old(incoming)|);
              && incoming == old(incoming)[m..]
              && dst[..] == old(dst[..])[..at] + old(incoming)[..m] + old(dst[..])[at + m..]
    {
      var m := Ready(schedule[0], n, |incoming|);
      k := if schedule[0] < 0 then -1 else m;
      forall i | 0 <= i < m {
        dst[at + i] := incoming[i];
      }
      incoming, schedule := incoming[m..], schedule[1..];
    }

    /** send, which reports accepting `accepted` bytes, or -1. */
    method Send(src: array<byte>, n: nat, accepted: int)
      requires n <= src.Length && -1 <= accepted <= n
      modifies this`sent
      ensures sent == old(sent) + if accepted < 0 then [] else src[..n][..accepted]
    {
      if accepted > 0 {
        sent := sent + src[..accepted];
      }
    }
  }

  /** The answers to n heartbeats. */
  function NopLines(n: nat): bytes {
    if n == 0 then [] else NopLines(n - 1) + Print(Nop)
  }

  /** "NOP" and a line feed, n times. */
  lemma {:induction false} NopLinesAscii(n: nat)
    ensures |NopLines(n)| == 4 * n
    ensures forall k :: 0 <= k < n ==> NopLines(n)[4 * k..4 * k + 4] == [0x4E, 0x4F, 0x50, 0x0A]
  {
    if n > 0 {
      var before, line := NopLines(n - 1), [0x4E, 0x4F, 0x50, 0x0A];
      NopLinesAscii(n - 1);
      LinesAscii([], [], [], 0);
      hide Print;
      forall k | 0 <= k < n ensures NopLines(n)[4 * k..4 * k + 4] == line {
        if k < n - 1 {
          assert (before + line)[4 * k..4 * k + 4] == before[4 * k..4 * k + 4];
        } else {
          assert (before + line)[4 * k..4 * k + 4] == line;
        }
      }
    }
  }

  // ----- the code -----

  method ReadBody(sock: Socket, size: nat) returns (message: array<byte>)
    requires BodyRun(sock.schedule, Decoder.Zeros(size), 0, sock.incoming).Stopped?
    modifies sock`incoming, sock`schedule
    ensures fresh(message) && message.Length == Block(size) && message[size..] == Decoder.Zeros(Block(size) - size)
    ensures var r := old(BodyRun(sock.schedule, Decoder.Zeros(size), 0, sock.incoming));
            message[..size] == r.buf && sock.schedule == r.sched && sock.incoming == r.incoming
  {
    hide BodyRun, Overwrite, Decoder.Zeros;
    message := new byte[Block(size)](_ => 0);
    assert message[..size] == Decoder.Zeros(size) && message[size..] == Decoder.Zeros(Block(size) - size);
    ghost var goal := BodyRun(sock.schedule, message[..size], 0, sock.incoming);
    ReadStep(sock.schedule, message[..size], 0, sock.incoming);
    var l: int := 0;
    var k := ReadPiece(sock, message, l, size);
    l := l + k;
    while l < size && l > 0
      invariant l <= size && message[size..] == Decoder.Zeros(Block(size) - size)
      invariant if 0 < l < size then goal == BodyRun(sock.schedule, message[..size], l, sock.incoming)
                else goal == Stopped(l, message[..size], sock.schedule, sock.incoming)
      decreases |sock.schedule|
    {
      ReadStep(sock.schedule, message[..size], l, sock.incoming);
      k := ReadPiece(sock, message, l, size);
      l := l + k;
    }
  }

  /** One read of the inner loop that stays inside the frame. */
  method ReadPiece(sock: Socket, message: array<byte>, l: int, size: nat) returns (k: int)
    requires 0 <= l <= size < message.Length && sock.schedule != []
    requires l + Ready(sock.schedule[0], size, |sock.incoming|) <= size
    modifies sock`incoming, sock`schedule, message
    ensures sock.schedule == old(sock.schedule)[1..] && message[size..] == old(message[size..])
    ensures k == if old(sock.schedule)[0] < 0 then -1 else Ready(old(sock.schedule)[0], size, |old(sock.incoming)|)
    ensures var m := Ready(old(sock.schedule)[0], size, |old(sock.incoming)|);
            && sock.incoming == old(sock.incoming)[m..]
            && message[..size] == Overwrite(old(message[..size]), l, old(sock.incoming)[..m])
  {
    ghost var before := message[..];
    k := sock.Read(message, l, size);
    assert message[..size] == message[..][..size];
    assert before[..size] == old(message[..size]);
  }

  /** One read call of the size header, zero-padded. */
  method ReadHeader(sock: Socket) returns (size: int, msgSize: int)
    requires sock.schedule != []
    modifies sock`incoming, sock`schedule
    ensures var e, k := old(sock.schedule)[0], Ready(old(sock.schedule)[0], 4, |old(sock.incoming)|);
            && sock.schedule == old(sock.schedule)[1..] && sock.incoming == old(sock.incoming)[k..]
            && size == (if e < 0 then -1 else k)
            && (Head(Decoder.Pad(old(sock.incoming)[..k])) < MAX_FRAME
                ==> msgSize == Head(Decoder.Pad(old(sock.incoming)[..k])))
  {
    var msgSizeChar := new byte[4](_ => 0);
    ghost var zeros := msgSizeChar[..];
    ghost var k := Ready(sock.schedule[0], 4, |sock.incoming|);
    size := sock.Read(msgSizeChar, 0, 4);
    assert zeros[k..] == Decoder.Zeros(4 - k);
    assert msgSizeChar[..] == Decoder.Pad(old(sock.incoming)[..k]);
    msgSize := LoadI32(msgSizeChar[..]);
  }

  /** What strcmp sees of a received frame: the block holds at least one byte more, zero. */
  lemma {:induction false} CStringEnds(s: bytes, more: bytes)
    requires more != [] && more[0] == NUL
    ensures CString(s + more) == CString(s)
  {
    if s == [] {
      assert s + more == more;
    } else {
      assert (s + more)[1..] == s[1..] + more;
      CStringEnds(s[1..], more);
    }
  }

  method ReadText(sock: Socket, size: nat) returns (text: bytes)
    requires BodyRun(sock.schedule, Decoder.Zeros(size), 0, sock.incoming).Stopped?
    modifies sock`incoming, sock`schedule
    ensures var r := old(BodyRun(sock.schedule, Decoder.Zeros(size), 0, sock.incoming));
            text == TextOf(r.buf) && sock.schedule == r.sched && sock.incoming == r.incoming
  {
    hide BodyRun;
    var message := ReadBody(sock, size);
    if size >= 4 {
      assert message[4..] == message[..size][4..] + message[size..];
      CStringEnds(message[..size][4..], message[size..]);
    }
    text := CString(message[4..]);
  }

  method SendNop(sock: Socket)
    modifies sock`sent
    ensures sock.sent == old(sock.sent) + Print(Nop)
  {
    var nop := new byte[] [0x4E, 0x4F, 0x50, 0x0A];
    assert nop[..4][..4] == Print(Nop);
    sock.Send(nop, 4, 4);
  }

  /** The response loop, which publish and deferredPublish both contain. */
  method AwaitAnswer(sock: Socket) returns (r: int)
    requires Ends(Exchange(sock.schedule, sock.incoming, 0))
    modifies sock`incoming, sock`schedule, sock`sent
    ensures var e := old(Exchange(sock.schedule, sock.incoming, 0));
            && sock.schedule == e.sched && sock.incoming == e.incoming
            && sock.sent == old(sock.sent) + NopLines(e.nops)
            && r == if e.Answered? && e.text == [0x4F, 0x4B] then sock.fd else -1
  {
    hide Exchange, BodyRun, TextOf, Decoder.Pad, Head;
    ghost var goal, n := Exchange(sock.schedule, sock.incoming, 0), 0;
    while true
      invariant goal == Exchange(sock.schedule, sock.incoming, n) && Ends(goal)
      invariant sock.sent == old(sock.sent) + NopLines(n)
      decreases |sock.schedule|
    {
      ExchangeStep(sock.schedule, sock.incoming, n);
      var size, msgSize := ReadHeader(sock);
      if size == 0 {
        return -1;
      }
      if size == -1 {
        continue;
      }
      var text := ReadText(sock, msgSize);
      if text == OK {
        return sock.fd;
      } else if text == HEARTBEAT {
        SendNop(sock);
        n := n + 1;
      } else {
        return -1;
      }
    }
  }

  /** sendLen is what send reports for the request. */
  method Publish(sock: Socket, topic: bytes, msg: bytes, sendLen: int) returns (r: int)
    requires -1 <= sendLen <= |Encode(Pub(CString(topic), msg))| <= SEND_BUF_SIZE
    requires sendLen != 0 ==> Ends(Exchange(sock.schedule, sock.incoming, 0))
    modifies sock`incoming, sock`schedule, sock`sent
    ensures sendLen == 0 ==> r == -1 && sock.sent == old(sock.sent)
    ensures sendLen == 0 ==> sock.incoming == old(sock.incoming) && sock.schedule == old(sock.schedule)
    ensures sendLen != 0 ==>
              var e, request := old(Exchange(sock.schedule, sock.incoming, 0)), Encode(Pub(CString(topic), msg));
              && sock.schedule == e.sched && sock.incoming == e.incoming
              && sock.sent == old(sock.sent) + (if sendLen < 0 then [] else request[..sendLen]) + NopLines(e.nops)
              && r == if e.Answered? && e.text == [0x4F, 0x4B] then sock.fd else -1
  {
    hide Exchange, Encode, NopLines;
    var buf, ofs := FillPub(topic, msg);
    sock.Send(buf, ofs, sendLen);
    if sendLen == 0 {
      return -1;
    }
    r := AwaitAnswer(sock);
  }

  method DeferredPublish(sock: Socket, topic: bytes, msg: bytes, defer: int, sendLen: int) returns (r: int)
    requires IsInt32(defer)
    requires -1 <= sendLen <= |Encode(DeferredPub(CString(topic), defer, msg))| <= SEND_BUF_SIZE
    requires Ends(Exchange(sock.schedule, sock.incoming, 0))
    modifies sock`incoming, sock`schedule, sock`sent
    ensures var e := old(Exchange(sock.schedule, sock.incoming, 0));
            var request := Encode(DeferredPub(CString(topic), defer, msg));
            && sock.schedule == e.sched && sock.incoming == e.incoming
            && sock.sent == old(sock.sent) + (if sendLen < 0 then [] else request[..sendLen]) + NopLines(e.nops)
            && r == if e.Answered? && e.text == [0x4F, 0x4B] then sock.fd else -1
  {
    hide Exchange, Encode, NopLines;
    var buf, ofs := FillDeferredPub(topic, msg, defer);
    sock.Send(buf, ofs, sendLen);
    r := AwaitAnswer(sock);
  }
}
