/** A libevent buffered socket, reduced to its two byte queues, and the command writers of command.c. */
module Bufferevents {
  import opened Bytes
  import opened Commands

  class Bufferevent {
    var input: bytes
    var output: bytes

    constructor (received: bytes)
      ensures input == received && output == []
    {
      input, output := received, [];
    }

    /** bufferevent_read: takes up to n bytes, without blocking. */
    method Read(dst: array<byte>, at: nat, n: nat) returns (k: nat)
      requires Min(n, |input|) > 0 ==> at + Min(n, |input|) <= dst.Length
      modifies this`input, dst
      ensures k == Min(n, |old(input)|)
      ensures input == old(input)[k..]
      ensures if k == 0 then dst[..] == old(dst[..])
              else dst[..] == old(dst[..at]) + old(input)[..k] + old(dst[at + k..])
    {
      k := Min(n, |input|);
      forall i | 0 <= i < k {
        dst[at + i] := input[i];
      }
      input := input[k..];
    }

    /** bufferevent_write */
    method Write(src: array<byte>, n: nat)
      requires n <= src.Length
      modifies this`output
      ensures output == old(output) + src[..n]
    {
      output := output + src[..n];
    }
  }

  /** sprintf of a text that fits. */
  method Sprintf(dst: array<byte>, text: bytes) returns (n: nat)
    requires Fits(text, dst.Length)
    modifies dst
    ensures n == |text| && dst[..n] == text && dst[n] == NUL
  {
    n := |text|;
    forall i | 0 <= i < n {
      dst[i] := text[i];
    }
    dst[n] := NUL;
  }

  /** snprintf: what does not fit is cut off. */
  method Snprintf(dst: array<byte>, text: bytes)
    requires dst.Length > 0
    modifies dst
    ensures var n := Min(|text|, dst.Length - 1); dst[..n] == text[..n] && dst[n] == NUL
  {
    var n := Min(|text|, dst.Length - 1);
    forall i | 0 <= i < n {
      dst[i] := text[i];
    }
    dst[n] := NUL;
  }

  method Strlen(s: array<byte>) returns (n: nat)
    requires NUL in s[..]
    ensures n < s.Length && s[n] == NUL && forall i :: 0 <= i < n ==> s[i] != NUL
  {
    ghost var z :| 0 <= z < s.Length && s[z] == NUL;
    n := 0;
    while s[n] != NUL
      invariant n <= z && forall i :: 0 <= i < n ==> s[i] != NUL
      decreases z - n
    {
      n := n + 1;
    }
  }

  method NsqSubscribe(bev: Bufferevent, topic: bytes, channel: bytes)
    requires |topic| + |channel| <= 121
    modifies bev`output
    ensures bev.output == old(bev.output) + Print(Sub(topic, channel))
  {
    var b := new byte[MAX_BUF_SIZE];
    var n := Sprintf(b, Print(Sub(topic, channel)));
    bev.Write(b, n);
  }

  method NsqReady(bev: Bufferevent, count: int)
    requires IsInt32(count)
    modifies bev`output
    ensures bev.output == old(bev.output) + Print(Rdy(count))
  {
    var b := new byte[MAX_BUF_SIZE];
    BufferBounds(Rdy(count));
    var n := Sprintf(b, Print(Rdy(count)));
    bev.Write(b, n);
  }

  method NsqFinish(bev: Bufferevent, id: bytes)
    requires |CString(id)| <= 122
    modifies bev`output
    ensures bev.output == old(bev.output) + Print(Fin(CString(id)))
  {
    var b := new byte[MAX_BUF_SIZE];
    var n := Sprintf(b, Print(Fin(CString(id))));
    bev.Write(b, n);
  }

  method NsqNop(bev: Bufferevent)
    modifies bev`output
    ensures bev.output == old(bev.output) + Print(Nop)
  {
    var b := new byte[MAX_BUF_SIZE];
    var n := Sprintf(b, Print(Nop));
    bev.Write(b, n);
  }

  method NsqRequeue(bev: Bufferevent, id: bytes, timeout: int)
    requires IsInt32(timeout) && Fits(Print(Req(CString(id), timeout)), MAX_BUF_SIZE)
    modifies bev`output
    ensures bev.output == old(bev.output) + Print(Req(CString(id), timeout))
  {
    var b := new byte[MAX_BUF_SIZE];
    var n := Sprintf(b, Print(Req(CString(id), timeout)));
    bev.Write(b, n);
  }

  /** process_business_message formats with snprintf and sends strlen bytes of the result. */
  method WriteFormatted(bev: Bufferevent, text: bytes, capacity: nat)
    requires Fits(text, capacity) && NUL !in text
    modifies bev`output
    ensures bev.output == old(bev.output) + text
  {
    var b := new byte[capacity];
    Snprintf(b, text);
    assert forall i :: 0 <= i < |text| ==> b[i] == b[..|text|][i] == text[i];
    assert b[|text|] == NUL;
    var n := Strlen(b);
    bev.Write(b, n);
  }
}
