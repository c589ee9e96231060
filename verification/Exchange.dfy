/**
 * The response loop of pub.c over values: what it does with any bytes, however its reads turn out, and
 * exactly which reads let it take the frames nsqd sent.
 */
module Exchanges {
  import opened Bytes
  import opened Lists
  import opened Frames
  import opened Commands
  import opened Wrappers
  import Decoder

  /** The bytes one read call for n bytes returns, out of `avail`. */
  function Ready(e: int, n: nat, avail: nat): nat {
    if e <= 0 then 0 else Min(e, Min(n, avail))
  }

  /** What one read leaves in the frame's part of the buffer. */
  function Overwrite(buf: bytes, l: nat, data: bytes): bytes
    requires l + |data| <= |buf|
  {
    buf[..l] + data + buf[l + |data|..]
  }

  /** The end of the inner loop: l, the buffer, and what is left of the schedule and of the stream. */
  datatype Body = Stopped(l: int, buf: bytes, sched: seq<int>, incoming: bytes) | NeverStops | Overruns

  /** The inner loop: each read asks for the whole size again, and adds what it returns to l, be it -1. */
  function BodyRun(sched: seq<int>, buf: bytes, l: nat, incoming: bytes): (r: Body)
    requires l <= |buf|
    ensures r.Stopped? ==> |r.sched| < |sched| && |r.buf| == |buf|
    decreases |sched|
  {
    if sched == [] then NeverStops
    else if sched[0] < 0 then
      if l > 1 then BodyRun(sched[1..], buf, l - 1, incoming) else Stopped(l - 1, buf, sched[1..], incoming)
    else
      var k := Ready(sched[0], |buf|, |incoming|);
      if l + k > |buf| then Overruns
      else
        var now := Overwrite(buf, l, incoming[..k]);
        if 0 < l + k < |buf| then BodyRun(sched[1..], now, l + k, incoming[k..])
        else Stopped(l + k, now, sched[1..], incoming[k..])
  }

  datatype Receipt =
    | Received(size: nat, l: int, buf: bytes, sched: seq<int>, incoming: bytes)
    | Closed(sched: seq<int>)
    | Waiting
    | Unsafe

  /** From again_read to the comparison: a size header, zero-padded if short, and the inner loop. */
  function Receive(sched: seq<int>, incoming: bytes): (r: Receipt)
    ensures r.Received? ==> |r.sched| < |sched| && |r.buf| == r.size
    decreases |sched|
  {
    if sched == [] then Waiting
    else if sched[0] < 0 then Receive(sched[1..], incoming)
    else
      var k := Ready(sched[0], 4, |incoming|);
      if k == 0 then Closed(sched[1..])
      else
        var size := Head(Decoder.Pad(incoming[..k]));
        if size >= MAX_FRAME then Unsafe
        else
          match BodyRun(sched[1..], Decoder.Zeros(size), 0, incoming[k..])
          case NeverStops => Waiting
          case Overruns => Unsafe
          case Stopped(l, buf, rest, left) => Received(size, l, buf, rest, left)
  }

  /** strcmp against a constant reads the text after the frame type up to its first NUL; the block has no less. */
  function TextOf(f: bytes): bytes {
    if |f| < 4 then [] else CString(f[4..])
  }

  /** The text is w exactly when w is all there is behind the type, or is ended by a NUL. */
  lemma TextBytes(f: bytes, w: bytes)
    requires |f| >= 4 && 0 !in w
    ensures TextOf(f) == w <==> f[4..] == w || (|f| > 4 + |w| && f[4..5 + |w|] == w + [0])
  {
    CStringIs(f[4..], w);
    assert |f| > 4 + |w| ==> f[4..][..|w| + 1] == f[4..5 + |w|];
  }

  /** How the response loop ends, by the text of a frame that is no heartbeat; nops counts the heartbeats answered. */
  datatype Ending =
    | Answered(text: bytes, nops: nat, sched: seq<int>, incoming: bytes)
    | Lost(nops: nat, sched: seq<int>, incoming: bytes)
    | Endless
    | Undefined

  function Exchange(sched: seq<int>, incoming: bytes, nops: nat): Ending
    decreases |sched|
  {
    match Receive(sched, incoming)
    case Waiting => Endless
    case Unsafe => Undefined
    case Closed(rest) => Lost(nops, rest, incoming)
    case Received(_, _, buf, rest, left) =>
      if TextOf(buf) == HEARTBEAT then Exchange(rest, left, nops + 1) else Answered(TextOf(buf), nops, rest, left)
  }

  /** The loop ends, without touching memory that is not its own. */
  predicate Ends(e: Ending) {
    e.Answered? || e.Lost?
  }

  /** One turn of the inner loop over values. */
  lemma ReadStep(sched: seq<int>, buf: bytes, l: nat, incoming: bytes)
    requires l <= |buf| && BodyRun(sched, buf, l, incoming).Stopped?
    ensures sched != [] && l + Ready(sched[0], |buf|, |incoming|) <= |buf|
    ensures var m := Ready(sched[0], |buf|, |incoming|);
            var next := l + if sched[0] < 0 then -1 else m;
            var now := Overwrite(buf, l, incoming[..m]);
            && |now| == |buf|
            && BodyRun(sched, buf, l, incoming)
               == if 0 < next < |buf| then BodyRun(sched[1..], now, next, incoming[m..])
                  else Stopped(next, now, sched[1..], incoming[m..])
  {
    assert sched[0] < 0 ==> Overwrite(buf, l, incoming[..0]) == buf;
  }

  /** One header read of an exchange that ends. */
  lemma ExchangeStep(sched: seq<int>, incoming: bytes, nops: nat)
    requires Ends(Exchange(sched, incoming, nops))
    ensures sched != []
    ensures var k, e := Ready(sched[0], 4, |incoming|), Exchange(sched, incoming, nops);
            && (sched[0] < 0 ==> e == Exchange(sched[1..], incoming, nops))
            && (sched[0] >= 0 && k == 0 ==> e == Lost(nops, sched[1..], incoming))
            && (k > 0 ==>
                var size := Head(Decoder.Pad(incoming[..k]));
                && size < MAX_FRAME
                && var r := BodyRun(sched[1..], Decoder.Zeros(size), 0, incoming[k..]);
                   && r.Stopped?
                   && e == if TextOf(r.buf) == HEARTBEAT then Exchange(r.sched, r.incoming, nops + 1)
                           else Answered(TextOf(r.buf), nops, r.sched, r.incoming))
  {
    hide BodyRun, TextOf, CString, Head;
  }

  // ----- reads that deliver -----

  /** What is left of the schedule after reads that return exactly the rest of a body, with m bytes behind it. */
  function BodyTail(sched: seq<int>, size: nat, l: nat, m: nat): Option<seq<int>>
    requires l <= size
  {
    if l == size then Some(sched)
    else if sched == [] || sched[0] < 0 then None
    else
      var k := Ready(sched[0], size, size - l + m);
      if l + k == 0 || l + k > size then None else BodyTail(sched[1..], size, l + k, m)
  }

  /** The same for a frame of n bytes: reads that would block, one that returns the whole header, the body. */
  function FrameTail(sched: seq<int>, n: nat, m: nat): Option<seq<int>> {
    if sched == [] then None
    else if sched[0] < 0 then FrameTail(sched[1..], n, m)
    else if sched[0] < 4 then None
    else BodyTail(sched[1..], n, 0, m)
  }

  /** The same for frames of these sizes, one behind the other. */
  function FramesTail(sched: seq<int>, sizes: seq<nat>, m: nat): Option<seq<int>>
    decreases |sizes|
  {
    if sizes == [] then Some(sched)
    else
      match FrameTail(sched, sizes[0], WireLength(sizes[1..]) + m)
      case None => None
      case Some(tail) => FramesTail(tail, sizes[1..], m)
  }

  function Sizes(fs: seq<bytes>): seq<nat> {
    if fs == [] then [] else [|fs[0]|] + Sizes(fs[1..])
  }

  function WireLength(sizes: seq<nat>): nat {
    if sizes == [] then 0 else 4 + sizes[0] + WireLength(sizes[1..])
  }

  lemma {:induction false} StreamLength(fs: seq<bytes>)
    ensures |Stream(fs)| == WireLength(Sizes(fs))
  {
    if fs != [] {
      StreamLength(fs[1..]);
    }
  }

  predicate Sized(fs: seq<bytes>) {
    forall f :: f in fs ==> 4 <= |f| < MAX_FRAME
  }

  /** The buffer compared is the frame nsqd sent first, and no byte after it has been taken. */
  predicate Takes(r: Receipt, f: bytes, after: bytes) {
    r.Received? && r.buf == f && r.incoming == after
  }

  /** So for one frame after the other. */
  predicate TakesAll(sched: seq<int>, fs: seq<bytes>, after: bytes)
    decreases |fs|
  {
    fs == [] ||
    var r := Receive(sched, Stream(fs) + after);
    Takes(r, fs[0], Stream(fs[1..]) + after) && TakesAll(r.sched, fs[1..], after)
  }

  lemma {:induction false} BodySegmented(sched: seq<int>, buf: bytes, l: nat, f: bytes, after: bytes)
    requires l <= |buf| == |f| && l < |f| && buf[..l] == f[..l] && BodyTail(sched, |f|, l, |after|).Some?
    ensures BodyRun(sched, buf, l, f[l..] + after) == Stopped(|f|, f, BodyTail(sched, |f|, l, |after|).value, after)
    decreases |sched|
  {
    var incoming := f[l..] + after;
    var k := Ready(sched[0], |f|, |incoming|);
    var now := Overwrite(buf, l, incoming[..k]);
    assert now[..l + k] == f[..l + k];
    assert incoming[k..] == f[l + k..] + after;
    if l + k < |f| {
      BodySegmented(sched[1..], now, l + k, f, after);
    } else {
      assert now == f && incoming[k..] == after;
    }
  }

  /** A header read that returns at least the four bytes that are there. */
  lemma WholeHeader(sched: seq<int>, f: bytes, after: bytes)
    requires sched != [] && sched[0] >= 4 && 4 <= |f| < MAX_FRAME
    ensures Receive(sched, Wire(f) + after)
         == match BodyRun(sched[1..], Decoder.Zeros(|f|), 0, f + after)
            case NeverStops => Waiting
            case Overruns => Unsafe
            case Stopped(l, buf, rest, left) => Received(|f|, l, buf, rest, left)
  {
    hide BodyRun, Head;
    var s := Wire(f) + after;
    assert s == BigEndian(|f|, 4) + (f + after);
    HeadOf(|f|, []);
    assert Decoder.Pad(s[..4]) == BigEndian(|f|, 4) + [];
    assert s[4..] == f + after;
  }

  lemma {:induction false} ReceiveSegmented(sched: seq<int>, f: bytes, after: bytes)
    requires 4 <= |f| < MAX_FRAME && FrameTail(sched, |f|, |after|).Some?
    ensures Receive(sched, Wire(f) + after) == Received(|f|, |f|, f, FrameTail(sched, |f|, |after|).value, after)
    decreases |sched|
  {
    hide BodyRun, BodyTail, Wire, Head;
    if sched[0] < 0 {
      ReceiveSegmented(sched[1..], f, after);
    } else {
      WholeHeader(sched, f, after);
      BodySegmented(sched[1..], Decoder.Zeros(|f|), 0, f, after);
      assert f[0..] == f;
    }
  }

  // ----- reads that do not -----

  /** Once l has fallen behind the bytes taken, the last byte is not reached before the next frame is. */
  lemma {:induction false} FallenBehind(sched: seq<int>, buf: bytes, l: nat, incoming: bytes, m: nat)
    requires l < |buf| && buf[|buf| - 1] == 0 && l + |incoming| < |buf| + m
    ensures var r := BodyRun(sched, buf, l, incoming); r.Stopped? && |r.incoming| >= m ==> r.buf[|buf| - 1] == 0
    decreases |sched|
  {
    if sched != [] {
      var k := Ready(sched[0], |buf|, |incoming|);
      if sched[0] < 0 {
        if l > 1 {
          FallenBehind(sched[1..], buf, l - 1, incoming, m);
        }
      } else if l + k < |buf| {
        FallenBehind(sched[1..], Overwrite(buf, l, incoming[..k]), l + k, incoming[k..], m);
      }
    }
  }

  lemma {:induction false} BodyUnsegmented(sched: seq<int>, buf: bytes, l: nat, incoming: bytes, m: nat)
    requires l < |buf| && buf[|buf| - 1] == 0 && l + |incoming| == |buf| + m
    requires BodyTail(sched, |buf|, l, m).None?
    ensures var r := BodyRun(sched, buf, l, incoming); r.Stopped? && |r.incoming| >= m ==> r.buf[|buf| - 1] == 0
    decreases |sched|
  {
    if sched != [] {
      var k := Ready(sched[0], |buf|, |incoming|);
      if sched[0] < 0 {
        if l > 1 {
          FallenBehind(sched[1..], buf, l - 1, incoming, m);
        }
      } else if 0 < l + k <= |buf| {
        BodyUnsegmented(sched[1..], Overwrite(buf, l, incoming[..k]), l + k, incoming[k..], m);
      }
    }
  }

  /** After a short header the body begins with what is left of the size. */
  lemma {:induction false} FirstByteStays(sched: seq<int>, buf: bytes, l: nat, incoming: bytes)
    requires l <= |buf| && buf != [] && buf[0] == 0 && (l > 0 || (incoming != [] && incoming[0] == 0))
    ensures var r := BodyRun(sched, buf, l, incoming); r.Stopped? ==> r.buf[0] == 0
    decreases |sched|
  {
    if sched != [] {
      var k := Ready(sched[0], |buf|, |incoming|);
      if sched[0] < 0 {
        if l > 1 {
          FirstByteStays(sched[1..], buf, l - 1, incoming);
        }
      } else if 0 < l + k < |buf| {
        FirstByteStays(sched[1..], Overwrite(buf, l, incoming[..k]), l + k, incoming[k..]);
      }
    }
  }

  /** A frame that shows every mistake: neither end of it can be mistaken for bytes that were never written. */
  predicate Telling(f: bytes) {
    4 <= |f| < MAX_FRAME && f[|f| - 1] != 0 && (f[0] != 0 || |f| % 256 != 0)
  }

  lemma CutInFirst(a: bytes, b: bytes, k: nat)
    requires k <= |a|
    ensures (a + b)[..k] == a[..k] && (a + b)[k..] == a[k..] + b
  {
  }

  lemma ShortHeader(sched: seq<int>, f: bytes, after: bytes)
    requires sched != [] && 0 < sched[0] < 4 && Telling(f)
    ensures !Takes(Receive(sched, Wire(f) + after), f, after)
  {
    hide BodyRun, Head;
    var k, s := sched[0], Wire(f) + after;
    var header := BigEndian(|f|, 4);
    assert s == header + (f + after);
    CutInFirst(header, f + after, k);
    var padded := Decoder.Pad(header[..k]);
    if Head(padded) == |f| {
      HeadDigits(padded);
      assert padded[k] == 0 && padded[3] == 0;
      assert s[k..][0] == header[k];
      assert header[3] == (|f| % 256) as byte;
      FirstByteStays(sched[1..], Decoder.Zeros(|f|), 0, s[k..]);
    }
  }

  lemma {:induction false} ReceiveUnsegmented(sched: seq<int>, f: bytes, after: bytes)
    requires Telling(f) && FrameTail(sched, |f|, |after|).None?
    ensures !Takes(Receive(sched, Wire(f) + after), f, after)
    decreases |sched|
  {
    hide BodyRun, BodyTail, Wire, Head;
    if sched != [] {
      if sched[0] < 0 {
        ReceiveUnsegmented(sched[1..], f, after);
      } else if 0 < sched[0] < 4 {
        ShortHeader(sched, f, after);
      } else if sched[0] >= 4 {
        WholeHeader(sched, f, after);
        BodyUnsegmented(sched[1..], Decoder.Zeros(|f|), 0, f + after, |after|);
      }
    }
  }

  lemma {:induction false} SegmentedTakes(sched: seq<int>, fs: seq<bytes>, after: bytes)
    requires Sized(fs) && FramesTail(sched, Sizes(fs), |after|).Some?
    ensures TakesAll(sched, fs, after)
    decreases |fs|
  {
    hide Receive, FrameTail, Wire;
    if fs != [] {
      assert fs[0] in fs;
      NextFrame(sched, fs, after);
      SegmentedTakes(FrameTail(sched, |fs[0]|, |Stream(fs[1..]) + after|).value, fs[1..], after);
    }
  }

  lemma NextFrame(sched: seq<int>, fs: seq<bytes>, after: bytes)
    requires fs != [] && 4 <= |fs[0]| < MAX_FRAME
    ensures Stream(fs) + after == Wire(fs[0]) + (Stream(fs[1..]) + after)
    ensures WireLength(Sizes(fs[1..])) + |after| == |Stream(fs[1..]) + after|
    ensures var t := FrameTail(sched, |fs[0]|, |Stream(fs[1..]) + after|);
            t.Some? ==>
              Receive(sched, Stream(fs) + after)
              == Received(|fs[0]|, |fs[0]|, fs[0], t.value, Stream(fs[1..]) + after)
  {
    hide Receive, FrameTail, Wire;
    var rest := Stream(fs[1..]) + after;
    StreamLength(fs[1..]);
    assert Stream(fs) + after == Wire(fs[0]) + rest;
    if FrameTail(sched, |fs[0]|, |rest|).Some? {
      ReceiveSegmented(sched, fs[0], rest);
    }
  }

  lemma {:induction false} TakesSegmented(sched: seq<int>, fs: seq<bytes>, after: bytes)
    requires (forall f :: f in fs ==> Telling(f)) && TakesAll(sched, fs, after)
    ensures FramesTail(sched, Sizes(fs), |after|).Some?
    decreases |fs|
  {
    hide Receive, FrameTail, Wire;
    if fs != [] {
      assert fs[0] in fs;
      var rest := Stream(fs[1..]) + after;
      NextFrame(sched, fs, after);
      if FrameTail(sched, |fs[0]|, |rest|).None? {
        ReceiveUnsegmented(sched, fs[0], rest);
      }
      TakesSegmented(FrameTail(sched, |fs[0]|, |rest|).value, fs[1..], after);
    }
  }

  // ----- whole exchanges -----

  predicate IsBeat(f: bytes) {
    |f| >= 4 && TextOf(f) == HEARTBEAT
  }

  lemma BeatPasses(sched: seq<int>, f: bytes, after: bytes, nops: nat)
    requires |f| < MAX_FRAME && IsBeat(f) && FrameTail(sched, |f|, |after|).Some?
    ensures Exchange(sched, Wire(f) + after, nops) == Exchange(FrameTail(sched, |f|, |after|).value, after, nops + 1)
  {
    hide Receive, FrameTail, Wire, TextOf;
    ReceiveSegmented(sched, f, after);
  }

  lemma FramesStep(sched: seq<int>, fs: seq<bytes>, m: nat)
    ensures var all := FramesTail(sched, Sizes(fs), m);
            if fs == [] then all == Some(sched)
            else
              var t := FrameTail(sched, |fs[0]|, WireLength(Sizes(fs[1..])) + m);
              all == if t.None? then None else FramesTail(t.value, Sizes(fs[1..]), m)
  {
    hide FrameTail;
    assert fs != [] ==> Sizes(fs)[1..] == Sizes(fs[1..]);
  }

  /** Heartbeats pass one by one, each counted, and the exchange goes on behind them. */
  lemma {:induction false} BeatsPass(sched: seq<int>, fs: seq<bytes>, after: bytes, nops: nat)
    requires Sized(fs) && (forall f :: f in fs ==> IsBeat(f)) && FramesTail(sched, Sizes(fs), |after|).Some?
    ensures Exchange(sched, Stream(fs) + after, nops)
         == Exchange(FramesTail(sched, Sizes(fs), |after|).value, after, nops + |fs|)
    decreases |fs|
  {
    hide Exchange, FrameTail, FramesTail, Sizes, WireLength, Stream, IsBeat;
    EmptyStream(after);
    FramesStep(sched, fs, |after|);
    if fs != [] {
      assert fs[0] in fs;
      var rest := Stream(fs[1..]) + after;
      NextFrame(sched, fs, after);
      BeatPasses(sched, fs[0], rest, nops);
      BeatsPass(FrameTail(sched, |fs[0]|, |rest|).value, fs[1..], after, nops + 1);
    }
  }

  /** A connection that ends where a header is due is lost, behind however many heartbeats. */
  lemma LostBehindBeats(sched: seq<int>, fs: seq<bytes>, after: bytes)
    requires Sized(fs) && (forall f :: f in fs ==> IsBeat(f)) && FramesTail(sched, Sizes(fs), |after|).Some?
    requires var t := FramesTail(sched, Sizes(fs), |after|).value; t != [] && (t[0] == 0 || (t[0] > 0 && after == []))
    ensures Exchange(sched, Stream(fs) + after, 0)
         == Lost(|fs|, FramesTail(sched, Sizes(fs), |after|).value[1..], after)
  {
    hide FramesTail, Sizes, Stream, IsBeat;
    BeatsPass(sched, fs, after, 0);
  }

  lemma AnswerEnds(sched: seq<int>, f: bytes, after: bytes, nops: nat)
    requires 4 <= |f| < MAX_FRAME && !IsBeat(f) && FrameTail(sched, |f|, |after|).Some?
    ensures Exchange(sched, Wire(f) + after, nops)
         == Answered(TextOf(f), nops, FrameTail(sched, |f|, |after|).value, after)
  {
    hide Receive, FrameTail, Wire;
    ReceiveSegmented(sched, f, after);
  }

  /** Any number of header reads that would block, then the header, then the body in pieces. */
  datatype FrameReads = FrameReads(blocked: nat, pieces: seq<int>)

  function Sum(xs: seq<int>): int {
    if xs == [] then 0 else xs[0] + Sum(xs[1..])
  }

  predicate Positive(xs: seq<int>) {
    xs == [] || (xs[0] > 0 && Positive(xs[1..]))
  }

  predicate Delivers(r: FrameReads, f: bytes) {
    Positive(r.pieces) && Sum(r.pieces) == |f|
  }

  function Blocked(n: nat): seq<int> {
    if n == 0 then [] else [-1] + Blocked(n - 1)
  }

  function ReadsOf(r: FrameReads): seq<int> {
    Blocked(r.blocked) + [4] + r.pieces
  }

  lemma {:induction false} SumPositive(xs: seq<int>)
    requires Positive(xs)
    ensures Sum(xs) >= |xs|
  {
    if xs != [] {
      SumPositive(xs[1..]);
    }
  }

  lemma {:induction false} PiecesDeliver(pieces: seq<int>, tail: seq<int>, size: nat, l: nat, m: nat)
    requires Positive(pieces) && l + Sum(pieces) == size
    ensures l <= size && BodyTail(pieces + tail, size, l, m) == Some(tail)
    decreases |pieces|
  {
    if pieces == [] {
      assert pieces + tail == tail;
    } else {
      SumPositive(pieces[1..]);
      assert (pieces + tail)[1..] == pieces[1..] + tail;
      PiecesDeliver(pieces[1..], tail, size, l + pieces[0], m);
    }
  }

  lemma {:induction false} BlockedSkips(n: nat, sched: seq<int>, size: nat, m: nat)
    ensures FrameTail(Blocked(n) + sched, size, m) == FrameTail(sched, size, m)
  {
    hide BodyTail;
    if n == 0 {
      assert Blocked(0) + sched == sched;
    } else {
      BlockedSkips(n - 1, sched, size, m);
      assert (Blocked(n) + sched)[1..] == Blocked(n - 1) + sched;
    }
  }

  lemma PlanOfFrame(r: FrameReads, f: bytes, tail: seq<int>, m: nat)
    requires Delivers(r, f)
    ensures FrameTail(ReadsOf(r) + tail, |f|, m) == Some(tail)
  {
    hide BodyTail;
    var sched := [4] + (r.pieces + tail);
    assert ReadsOf(r) + tail == Blocked(r.blocked) + sched;
    BlockedSkips(r.blocked, sched, |f|, m);
    assert sched[1..] == r.pieces + tail;
    PiecesDeliver(r.pieces, tail, |f|, 0, m);
  }

  lemma {:induction false} PlanOfFrames(plan: seq<FrameReads>, fs: seq<bytes>, tail: seq<int>, m: nat)
    requires |plan| == |fs| && forall i :: 0 <= i < |fs| ==> Delivers(plan[i], fs[i])
    ensures FramesTail(Collect(ReadsOf, plan) + tail, Sizes(fs), m) == Some(tail)
    decreases |fs|
  {
    hide FrameTail, Delivers, ReadsOf;
    if fs == [] {
      assert Collect(ReadsOf, plan) + tail == tail;
    } else {
      var later := Collect(ReadsOf, plan[1..]) + tail;
      assert Collect(ReadsOf, plan) + tail == ReadsOf(plan[0]) + later;
      PlanOfFrame(plan[0], fs[0], later, WireLength(Sizes(fs[1..])) + m);
      PlanOfFrames(plan[1..], fs[1..], tail, m);
    }
  }

  lemma PlannedExchange(plan: seq<FrameReads>, beats: seq<bytes>, answer: bytes, later: seq<int>, after: bytes)
    requires Sized(beats + [answer]) && (forall f :: f in beats ==> IsBeat(f)) && !IsBeat(answer)
    requires |plan| == |beats| + 1
    requires forall i :: 0 <= i < |plan| ==> Delivers(plan[i], (beats + [answer])[i])
    ensures Exchange(Collect(ReadsOf, plan) + later, Stream(beats) + Wire(answer) + after, 0)
         == Answered(TextOf(answer), |beats|, later, after)
  {
    hide FrameTail, FramesTail, Sizes, Delivers, ReadsOf, Stream, Wire, IsBeat, TextOf, Exchange, Collect;
    var k := |beats|;
    var last := ReadsOf(plan[k]) + later;
    assert plan == plan[..k] + [plan[k]];
    CollectAppend(ReadsOf, plan[..k], [plan[k]]);
    CollectOne(ReadsOf, plan[k]);
    assert Collect(ReadsOf, plan) + later == Collect(ReadsOf, plan[..k]) + last;
    assert forall i :: 0 <= i < k ==> (beats + [answer])[i] == beats[i];
    assert forall f :: f in beats ==> f in beats + [answer];
    assert answer in beats + [answer];
    PlanOfFrames(plan[..k], beats, last, |Wire(answer) + after|);
    BeatsPass(Collect(ReadsOf, plan) + later, beats, Wire(answer) + after, 0);
    PlanOfFrame(plan[k], answer, later, |after|);
    AnswerEnds(last, answer, after, k);
    assert Stream(beats) + Wire(answer) + after == Stream(beats) + (Wire(answer) + after);
  }

  /**
   * k heartbeats and an answer: under every segmentation of the bodies and any number of blocked header
   * reads, the exchange takes exactly those k + 1 frames, answers each heartbeat, and ends with the text of the
   * answer, which is the "OK" of success if and only if these bytes, and no others before a NUL, follow the type.
   */
  lemma AnySegmentation(plan: seq<FrameReads>, beats: seq<bytes>, answer: bytes, later: seq<int>, after: bytes)
    requires Sized(beats + [answer]) && (forall f :: f in beats ==> IsBeat(f)) && !IsBeat(answer)
    requires |plan| == |beats| + 1
    requires forall i :: 0 <= i < |plan| ==> Delivers(plan[i], (beats + [answer])[i])
    ensures Exchange(Collect(ReadsOf, plan) + later, Stream(beats) + Wire(answer) + after, 0)
         == Answered(TextOf(answer), |beats|, later, after)
    ensures TextOf(answer) == [0x4F, 0x4B] <==>
              answer[4..] == [0x4F, 0x4B] || (|answer| > 6 && answer[4..7] == [0x4F, 0x4B, 0])
  {
    hide Delivers, Exchange, TextOf, Stream, Wire, IsBeat;
    PlannedExchange(plan, beats, answer, later, after);
    assert answer in beats + [answer];
    TextBytes(answer, [0x4F, 0x4B]);
  }

  /** As nsqd writes it: k heartbeats, then the answer to the request. */
  function Reply(k: nat, answer: bytes): seq<bytes> {
    if k == 0 then [answer] else [EncodeResponse(HEARTBEAT)] + Reply(k - 1, answer)
  }

  /** Of a reply and what follows it, the frames taken are those nsqd wrote. */
  predicate TakesReply(sched: seq<int>, k: nat, answer: bytes, after: bytes) {
    TakesAll(sched, Reply(k, answer), after)
  }

  /** An exchange that takes a reply for what it is ends by its answer, right behind it. */
  lemma {:induction false} TakenReplyAnswers(sched: seq<int>, k: nat, answer: bytes, after: bytes, nops: nat)
    requires 4 <= |answer| < MAX_FRAME && !IsBeat(answer) && TakesReply(sched, k, answer, after)
    ensures var e := Exchange(sched, Stream(Reply(k, answer)) + after, nops);
            && e.Answered? && e.nops == nops + k && e.incoming == after
            && (e.text == [0x4F, 0x4B] <==>
                  answer[4..] == [0x4F, 0x4B] || (|answer| > 6 && answer[4..7] == [0x4F, 0x4B, 0]))
    decreases k
  {
    hide Receive, Stream, TextOf;
    TextBytes(answer, [0x4F, 0x4B]);
    var r := Receive(sched, Stream(Reply(k, answer)) + after);
    if k == 0 {
      EmptyStream(after);
    } else {
      HeartbeatText();
      assert Reply(k, answer)[1..] == Reply(k - 1, answer);
      TakenReplyAnswers(r.sched, k - 1, answer, after, nops + 1);
    }
  }

  lemma EmptyStream(after: bytes)
    ensures Stream([]) + after == after
  {
  }

  lemma HeartbeatText()
    ensures IsBeat(EncodeResponse(HEARTBEAT))
  {
    EncodedResponse(HEARTBEAT);
    CStringWhole(HEARTBEAT);
  }

  function ReplySizes(k: nat, n: nat): seq<nat> {
    if k == 0 then [n] else [15] + ReplySizes(k - 1, n)
  }

  lemma {:induction false} ReplyHolds(k: nat, answer: bytes)
    requires 4 <= |answer| < MAX_FRAME
    ensures Sizes(Reply(k, answer)) == ReplySizes(k, |answer|) && Sized(Reply(k, answer))
    ensures Telling(answer) ==> forall f :: f in Reply(k, answer) ==> Telling(f)
  {
    hide Telling, EncodeResponse;
    if k > 0 {
      var beat, more := EncodeResponse(HEARTBEAT), Reply(k - 1, answer);
      ReplyHolds(k - 1, answer);
      BeatTells();
      assert ([beat] + more)[1..] == more;
    }
  }

  lemma BeatTells()
    ensures Telling(EncodeResponse(HEARTBEAT)) && |EncodeResponse(HEARTBEAT)| == 15
  {
    EncodedResponse(HEARTBEAT);
  }

  /**
   * The exact condition, for whatever follows the reply: an exchange takes k heartbeats and an answer of n bytes
   * for what they are, whatever the answer says, if and only if every header read that does not block returns
   * all four bytes and the reads of every body return it and no more, without blocking.
   */
  lemma ExactSegmentation(sched: seq<int>, k: nat, n: nat, after: bytes)
    requires 4 <= n < MAX_FRAME
    ensures (forall answer :: |answer| == n ==> TakesReply(sched, k, answer, after))
       <==> FramesTail(sched, ReplySizes(k, n), |after|).Some?
  {
    hide TakesAll, FramesTail, Sizes, Reply, ReplySizes;
    if FramesTail(sched, ReplySizes(k, n), |after|).Some? {
      forall answer: bytes | |answer| == n ensures TakesReply(sched, k, answer, after) {
        ReplyHolds(k, answer);
        SegmentedTakes(sched, Reply(k, answer), after);
      }
    } else {
      var answer: bytes := seq(n, _ => 1);
      ReplyHolds(k, answer);
      if TakesReply(sched, k, answer, after) {
        TakesSegmented(sched, Reply(k, answer), after);
      }
      assert |answer| == n && !TakesReply(sched, k, answer, after);
    }
  }

  // ----- several publishes on one socket -----

  /** The exchanges of n publishes, each on what the one before left of the schedule and of the stream. */
  function Publishes(sched: seq<int>, incoming: bytes, n: nat): seq<Ending>
    decreases n
  {
    if n == 0 then []
    else
      var e := Exchange(sched, incoming, 0);
      [e] + if Ends(e) then Publishes(e.sched, e.incoming, n - 1) else []
  }

  /** nsqd's answer to one publish, and how many heartbeats it sends before it. */
  datatype Answer = Answer(beats: nat, frame: bytes)

  predicate ValidAnswer(a: Answer) {
    4 <= |a.frame| < MAX_FRAME && !IsBeat(a.frame)
  }

  function Replies(answers: seq<Answer>): seq<bytes> {
    if answers == [] then [] else Reply(answers[0].beats, answers[0].frame) + Replies(answers[1..])
  }

  lemma Unjoined(f: bytes, fs: seq<bytes>)
    ensures Sizes([]) == [] && Stream([]) == []
    ensures Sizes([f] + fs) == [|f|] + Sizes(fs) && Stream([f] + fs) == Wire(f) + Stream(fs)
  {
    assert ([f] + fs)[1..] == fs;
  }

  lemma {:induction false} JoinedFrames(a: seq<bytes>, b: seq<bytes>)
    ensures Sizes(a + b) == Sizes(a) + Sizes(b) && Stream(a + b) == Stream(a) + Stream(b)
  {
    hide Wire, Sizes, Stream;
    if a == [] {
      Unjoined([], []);
      assert a + b == b;
    } else {
      JoinedFrames(a[1..], b);
      Unjoined(a[0], a[1..]);
      Unjoined(a[0], a[1..] + b);
      assert a == [a[0]] + a[1..] && a + b == [a[0]] + (a[1..] + b);
    }
  }

  lemma {:induction false} JoinedTail(sched: seq<int>, a: seq<nat>, b: seq<nat>, m: nat)
    ensures WireLength(a + b) == WireLength(a) + WireLength(b)
    ensures var t := FramesTail(sched, a, WireLength(b) + m);
            FramesTail(sched, a + b, m) == if t.None? then None else FramesTail(t.value, b, m)
    decreases |a|
  {
    hide FrameTail;
    if a == [] {
      assert a + b == b;
    } else {
      assert (a + b)[1..] == a[1..] + b;
      var t := FrameTail(sched, a[0], WireLength(a[1..]) + (WireLength(b) + m));
      JoinedTail(if t.None? then sched else t.value, a[1..], b, m);
    }
  }

  /** One reply: taken with its heartbeats, and nothing behind it. */
  lemma {:induction false} ReplyEnds(sched: seq<int>, a: Answer, after: bytes, nops: nat)
    requires ValidAnswer(a) && FramesTail(sched, Sizes(Reply(a.beats, a.frame)), |after|).Some?
    ensures Exchange(sched, Stream(Reply(a.beats, a.frame)) + after, nops)
         == Answered(TextOf(a.frame), nops + a.beats,
                     FramesTail(sched, Sizes(Reply(a.beats, a.frame)), |after|).value, after)
    decreases a.beats
  {
    hide Exchange, FrameTail, Stream, TextOf, EncodeResponse, IsBeat, Telling, Receive;
    var fs := Reply(a.beats, a.frame);
    BeatTells();
    HeartbeatText();
    NextFrame(sched, fs, after);
    var rest := Stream(fs[1..]) + after;
    EmptyStream(after);
    if a.beats == 0 {
      AnswerEnds(sched, a.frame, after, nops);
    } else {
      assert fs[1..] == Reply(a.beats - 1, a.frame);
      BeatPasses(sched, fs[0], rest, nops);
      ReplyEnds(FrameTail(sched, |fs[0]|, |rest|).value, Answer(a.beats - 1, a.frame), after, nops + 1);
    }
  }

  lemma {:induction false} EachItsOwnText(sched: seq<int>, answers: seq<Answer>, after: bytes)
    requires forall a :: a in answers ==> ValidAnswer(a)
    requires FramesTail(sched, Sizes(Replies(answers)), |after|).Some?
    ensures var r := Publishes(sched, Stream(Replies(answers)) + after, |answers|);
            && |r| == |answers|
            && forall i :: 0 <= i < |r| ==>
                 r[i].Answered? && r[i].nops == answers[i].beats && r[i].text == TextOf(answers[i].frame)
    decreases |answers|
  {
    hide Exchange, FramesTail, Sizes, Stream, TextOf, ValidAnswer, Reply;
    if answers != [] {
      var a, fs, more := answers[0], Reply(answers[0].beats, answers[0].frame), Replies(answers[1..]);
      var rest := Stream(more) + after;
      assert a in answers;
      JoinedFrames(fs, more);
      JoinedTail(sched, Sizes(fs), Sizes(more), |after|);
      StreamLength(more);
      ReplyEnds(sched, a, rest, 0);
      assert Stream(fs + more) + after == Stream(fs) + rest;
      EachItsOwnText(FramesTail(sched, Sizes(fs), |rest|).value, answers[1..], after);
    }
  }

  /**
   * When the reads segment every reply, the i-th publish has the i-th answer and its heartbeats, and its text is
   * "OK" exactly when these bytes, and no others before a NUL, follow the type of that answer.
   */
  lemma EachItsOwnAnswer(sched: seq<int>, answers: seq<Answer>, after: bytes)
    requires forall a :: a in answers ==> ValidAnswer(a)
    requires FramesTail(sched, Sizes(Replies(answers)), |after|).Some?
    ensures var r := Publishes(sched, Stream(Replies(answers)) + after, |answers|);
            && |r| == |answers|
            && forall i :: 0 <= i < |r| ==>
                 var f := answers[i].frame;
                 && |f| >= 4 && r[i].Answered? && r[i].nops == answers[i].beats
                 && (r[i].text == [0x4F, 0x4B] <==>
                       f[4..] == [0x4F, 0x4B] || (|f| > 6 && f[4..7] == [0x4F, 0x4B, 0]))
  {
    hide Publishes, FramesTail, Sizes, Stream, TextOf, IsBeat, Replies;
    EachItsOwnText(sched, answers, after);
    forall i | 0 <= i < |answers|
      ensures var f := answers[i].frame;
              && |f| >= 4
              && (TextOf(f) == [0x4F, 0x4B] <==>
                    f[4..] == [0x4F, 0x4B] || (|f| > 6 && f[4..7] == [0x4F, 0x4B, 0]))
    {
      assert ValidAnswer(answers[i]);
      TextBytes(answers[i].frame, [0x4F, 0x4B]);
    }
  }

  /** A short header of a frame below 256 bytes is a size of zero: failure, and all but it stays in the stream. */
  lemma ShortHeaderIsFailure(sched: seq<int>, f: bytes, after: bytes, nops: nat)
    requires |sched| >= 2 && 0 < sched[0] < 4 && 4 <= |f| < 256
    ensures Exchange(sched, Wire(f) + after, nops)
         == Answered([], nops, sched[2..], (Wire(f) + after)[sched[0]..])
  {
    var k, s := sched[0], Wire(f) + after;
    var header := BigEndian(|f|, 4);
    assert header[..3] == BigEndian(0, 3);
    assert BigEndian(0, 3) == [0, 0, 0] by {
      assert BigEndian(0, 2) == BigEndian(0, 1) + [0];
    }
    assert s[..k] == header[..k];
    assert Decoder.Pad(s[..k]) == [0, 0, 0, 0];
    EmptyBody(sched[1..], s[k..]);
  }

  lemma EmptyBody(sched: seq<int>, incoming: bytes)
    requires sched != []
    ensures Decoder.Zeros(0) == [] && BodyRun(sched, [], 0, incoming).Stopped?
    ensures var r := BodyRun(sched, [], 0, incoming); r.buf == [] && r.sched == sched[1..] && r.incoming == incoming
  {
  }

  /** A body that is not there yet when its header is read: failure, and its bytes stay in the stream. */
  lemma BlockedBodyIsFailure(sched: seq<int>, f: bytes, after: bytes, nops: nat)
    requires |sched| >= 2 && sched[0] >= 4 && sched[1] < 0 && 4 <= |f| < MAX_FRAME
    ensures Exchange(sched, Wire(f) + after, nops) == Answered([], nops, sched[2..], f + after)
  {
    hide Wire, Head;
    WholeHeader(sched, f, after);
    var zeros := Decoder.Zeros(|f|);
    assert BodyRun(sched[1..], zeros, 0, f + after) == Stopped(-1, zeros, sched[2..], f + after);
    assert TextOf(zeros) == [] by {
      assert zeros[4..] == [] || zeros[4..][0] == 0;
    }
  }

  /**
   * A response whose body is late spoils the next publish as well: it takes the frame type for a size of zero,
   * whatever its reads of the body return, and fails with the text, be it "OK", still in the stream.
   */
  lemma LateBodySpoilsNext(sched: seq<int>, f: bytes, after: bytes)
    requires |sched| >= 4 && sched[0] >= 4 && sched[1] < 0 && sched[2] >= 4
    requires 4 <= |f| < MAX_FRAME && Head(f) == RESPONSE
    ensures Publishes(sched, Wire(f) + after, 2)
         == [Answered([], 0, sched[2..], f + after), Answered([], 0, sched[4..], f[4..] + after)]
  {
    hide Wire;
    hide Exchange;
    BlockedBodyIsFailure(sched, f, after, 0);
    TypeAsHeader(sched[2..], f, after);
    assert Publishes(sched[2..], f + after, 1) == [Exchange(sched[2..], f + after, 0)];
  }

  lemma TypeAsHeader(sched: seq<int>, f: bytes, after: bytes)
    requires |sched| >= 2 && sched[0] >= 4 && |f| >= 4 && Head(f) == RESPONSE
    ensures Exchange(sched, f + after, 0) == Answered([], 0, sched[2..], f[4..] + after)
  {
    hide BodyRun, Head;
    var s := f + after;
    CutInFirst(f, after, 4);
    HeadStays(f, s);
    EmptyBody(sched[1..], s[4..]);
  }

  lemma HeadStays(f: bytes, s: bytes)
    requires 4 <= |f| && f <= s
    ensures Head(Decoder.Pad(s[..4])) == Head(f)
  {
  }

  /**
   * A read that would block in the middle of a body: the byte before is overwritten and the first one behind the
   * frame taken in, or, when there was but one byte, the loop ends with it.
   */
  lemma BlockedMidBody(sched: seq<int>, f: bytes, next: byte, after: bytes)
    requires |sched| >= 5 && 4 <= |f| < MAX_FRAME && 0 < sched[1] < |f|
    requires sched[0] >= 4 && sched[2] < 0 && sched[3] == |f| - sched[1] && sched[4] == 1
    ensures var p, r := sched[1], Receive(sched, Wire(f) + ([next] + after));
            if p == 1 then r == Received(|f|, 0, f[..1] + Decoder.Zeros(|f| - 1), sched[3..], f[1..] + ([next] + after))
            else r == Received(|f|, |f|, f[..p - 1] + f[p..] + [next], sched[5..], after)
  {
    hide Wire, Receive, BodyRun, Decoder.Zeros;
    WholeHeader(sched, f, [next] + after);
    FirstPiece(sched[1..], f, [next] + after);
    LaterPieces(sched[2..], f, sched[1], next, after);
  }

  lemma FirstPiece(sched: seq<int>, f: bytes, after: bytes)
    requires sched != [] && 0 < sched[0] < |f|
    ensures var p := sched[0];
            BodyRun(sched, Decoder.Zeros(|f|), 0, f + after)
            == BodyRun(sched[1..], f[..p] + Decoder.Zeros(|f| - p), p, f[p..] + after)
  {
    hide Decoder.Zeros;
    var p, zeros := sched[0], Decoder.Zeros(|f|);
    CutInFirst(f, after, p);
    assert zeros[p..] == Decoder.Zeros(|f| - p);
    assert Overwrite(zeros, 0, f[..p]) == f[..p] + Decoder.Zeros(|f| - p);
  }

  lemma LaterPieces(sched: seq<int>, f: bytes, p: nat, next: byte, after: bytes)
    requires |sched| >= 3 && 0 < p < |f| && sched[0] < 0 && sched[1] == |f| - p && sched[2] == 1
    ensures var b, rest := f[..p] + Decoder.Zeros(|f| - p), [next] + after;
            BodyRun(sched, b, p, f[p..] + rest)
            == if p == 1 then Stopped(0, b, sched[1..], f[p..] + rest)
               else Stopped(|f|, f[..p - 1] + f[p..] + [next], sched[3..], after)
  {
    hide Decoder.Zeros;
    var n, b1, rest := |f|, f[..p] + Decoder.Zeros(|f| - p), [next] + after;
    if p > 1 {
      var b2 := Overwrite(b1, p - 1, f[p..]);
      CutInFirst(f[p..], rest, n - p);
      CutInFirst([next], after, 1);
      assert BodyRun(sched, b1, p, f[p..] + rest) == BodyRun(sched[1..], b1, p - 1, f[p..] + rest);
      assert BodyRun(sched[1..], b1, p - 1, f[p..] + rest) == BodyRun(sched[2..], b2, n - 1, rest);
      assert Overwrite(b2, n - 1, [next]) == f[..p - 1] + f[p..] + [next];
      assert BodyRun(sched[2..], b2, n - 1, rest).Stopped?;
    }
  }

  // ----- the two tests for a heartbeat -----

  /** The bytes of a heartbeat for the publisher. */
  lemma BeatBytes(f: bytes)
    ensures IsBeat(f) <==>
              var w := [0x5F, 0x68, 0x65, 0x61, 0x72, 0x74, 0x62, 0x65, 0x61, 0x74, 0x5F];
              |f| >= 4 && (f[4..] == w || (|f| > 15 && f[4..16] == w + [0]))
  {
    if |f| >= 4 {
      TextBytes(f, HEARTBEAT);
    }
  }

  /**
   * readcb tells a heartbeat by its size, the publisher by its text: they disagree exactly on the other texts of
   * eleven bytes and on longer ones that go on behind a NUL.
   */
  lemma HeartbeatTests(t: bytes)
    requires 4 + |t| < MAX_FRAME
    ensures (IsHeartbeat(EncodeResponse(t)) <==> IsBeat(EncodeResponse(t)))
       <==> !((|t| == 11 && t != HEARTBEAT) || (|t| > 11 && t[..12] == HEARTBEAT + [NUL]))
  {
    EncodedResponse(t);
    CStringIs(t, HEARTBEAT);
  }
}
