/** The callbacks of sub.c over their static variables, proved to be the steps of Session. */
module Subscribers {
  import opened Bytes
  import opened Lists
  import opened Frames
  import opened Decoder
  import opened Calls
  import opened Commands
  import opened Session
  import opened Bufferevents
  import opened MessageQueues
  import opened Wrappers

  /** The acknowledgements of these messages fit the formatting buffers. */
  predicate Acknowledgeable(ps: seq<Pending>) {
    forall p :: p in ps ==> |p.id| == 16 && IsInt32(p.delayTime)
  }

  lemma AcknowledgeableTail(ps: seq<Pending>)
    requires Acknowledgeable(ps)
    ensures ps != [] ==> Acknowledgeable(ps[1..]) && |ps[0].id| == 16 && IsInt32(ps[0].delayTime)
  {
  }

  lemma DecimalHasNoNul(n: int)
    ensures NUL !in Decimal(n)
  {
    DecimalInverse(n);
  }

  lemma AckFits(m: Pending, success: bool)
    requires m.autoFinish && |m.id| == 16 && IsInt32(m.delayTime)
    ensures |AckOf(Handed(m, success))| == 1
    ensures var text := Print(AckOf(Handed(m, success))[0]);
            NUL !in text && Fits(text, if success then FIN_BUF_SIZE else REQ_BUF_SIZE)
  {
    CStringWhole(m.id);
    DecimalHasNoNul(m.delayTime);
    DecimalLength(m.delayTime);
  }

  /** The conversion of an int to size_t. */
  function SizeT(n: int): nat
    requires IsInt64(n)
  {
    if n < 0 then n + 0x1_0000_0000_0000_0000 else n
  }

  lemma NothingDone(cfg: Config, f: bytes)
    requires f == []
    ensures NopOf(f) == [] && Enqueued(cfg, [f]) == []
  {
    EnqueuedOne(cfg, f);
  }

  lemma NothingEffected(cfg: Config)
    ensures Nops([]) == [] && Enqueued(cfg, []) == []
  {
  }

  /** The turns of a call that returns have a defined result, and the last one breaks. */
  lemma TurnReturns(v: Vars, input: bytes)
    requires ValidVars(v) && Turns(v, input).end.Returns?
    ensures var t, c := TurnOf(v, input), Turns(v, input);
            if t.Goes? then
              && (|t.rest| < |input| || (t.rest == input && v.Within? && t.vars.First?))
              && c == Call([t.frame] + Turns(t.vars, t.rest).frames, Turns(t.vars, t.rest).end)
            else t.Breaks? && c == Call([], Returns(t.saved, t.rest))
  {
  }

  lemma EffectsAppend(cfg: Config, done: seq<bytes>, f: bytes)
    ensures Nops(done + [f]) == Nops(done) + NopOf(f)
    ensures Enqueued(cfg, done + [f]) == Enqueued(cfg, done) + Enqueued(cfg, [f])
  {
    EnqueuedAppend(cfg, done, [f]);
    EnqueuedOne(cfg, f);
  }

  /** The type is read from four bytes of the block, whatever the size. */
  lemma TypeInBlock(block: bytes, size: nat)
    requires size < |block| && |block| >= 4 && forall i :: size <= i < |block| ==> block[i] == 0
    ensures PaddedHead(block[..size]) == U32(block, 0)
  {
    if size < 4 {
      assert Pad(block[..size]) == block[..4];
    }
  }

  /** What one call makes of a subscriber: the frames it completes, and the state it saves. */
  function AfterCall(cfg: Config, st: State, c: Call): State
    requires c.end.Returns?
  {
    State(c.end.saved, st.queue + Enqueued(cfg, c.frames), st.output + Nops(c.frames), st.handed)
  }

  /** The subscriber and what its last call left in the input buffer. */
  datatype Live = Live(st: State, unread: bytes)

  /** One callback on any input; None if readcb does not return or has no defined result. */
  function PlayStep(cfg: Config, v: Live, e: Event): Option<Live> {
    match e
    case Read(chunk) =>
      if Resumable(v.st.saved) && CallOf(v.st.saved, v.unread + chunk).end.Returns? then
        var c := CallOf(v.st.saved, v.unread + chunk);
        Some(Live(AfterCall(cfg, v.st, c), c.end.rest))
      else
        None
    case Tick(_) => Some(Live(Step(cfg, v.st, e), v.unread))
  }

  function Play(cfg: Config, es: seq<Event>): Option<Live> {
    if es == [] then Some(Live(Initial(cfg), []))
    else
      match Play(cfg, es[..|es| - 1])
      case None => None
      case Some(v) => PlayStep(cfg, v, es[|es| - 1])
  }

  /** A size of zero ends the call; what is behind it is decoded by the next one, as if it had just arrived. */
  lemma ZeroSizeDefers(cfg: Config, rest: bytes, more: bytes)
    ensures Play(cfg, [Read([0, 0, 0, 0] + rest)]) == Some(Live(Initial(cfg), rest))
    ensures Play(cfg, [Read([0, 0, 0, 0] + rest), Read(more)]) == Play(cfg, [Read(rest + more)])
  {
    hide Turns, Opening;
    assert Zeros(4) == [0, 0, 0, 0];
    ZeroHeader(4, rest);
    assert Zeros(0) + rest == rest;
    var first := [Read([0, 0, 0, 0] + rest)];
    assert [] + ([0, 0, 0, 0] + rest) == [0, 0, 0, 0] + rest && [] + (rest + more) == rest + more;
    assert first[..0] == [] && [Read(rest + more)][..0] == [];
    NothingEffected(cfg);
    var st := Initial(cfg);
    assert st.queue + [] == st.queue && st.output + [] == st.output;
    assert (first + [Read(more)])[..1] == first;
    assert first + [Read(more)] == [Read([0, 0, 0, 0] + rest), Read(more)];
  }

  lemma {:induction false} PlayPrefix(cfg: Config, es: seq<Event>, i: nat)
    requires Play(cfg, es).Some? && i < |es|
    ensures Play(cfg, es[..i]).Some? && Play(cfg, es[..i + 1]).Some?
    ensures Play(cfg, es[..i + 1]) == PlayStep(cfg, Play(cfg, es[..i]).value, es[i])
    decreases |es|
  {
    hide PlayStep;
    var init := es[..|es| - 1];
    if i == |es| - 1 {
      assert es[..i + 1] == es;
    } else {
      PlayPrefix(cfg, init, i);
      assert init[..i] == es[..i] && init[..i + 1] == es[..i + 1];
    }
  }

  /** Each read finds its call with frames of any type that it treats like a one-shot parse. */
  predicate Specified(cfg: Config, es: seq<Event>) {
    forall i :: 0 <= i < |es| && es[i].Read? ==>
      var saved := Run(cfg, es[..i]).saved;
      TypedStream(Held(saved) + es[i].chunk) && Tolerated(Held(saved) + es[i].chunk, saved.Idle?)
  }

  /** A stream of handled frames whose size headers arrive whole is such an input. */
  lemma DeliverableIsSpecified(cfg: Config, es: seq<Event>)
    requires Deliverable(es)
    ensures Specified(cfg, es)
  {
    hide Deliverable, Run, Tolerated, TypedStream, WellFormed;
    forall i | 0 <= i < |es| && es[i].Read?
      ensures var saved := Run(cfg, es[..i]).saved;
              TypedStream(Held(saved) + es[i].chunk) && Tolerated(Held(saved) + es[i].chunk, saved.Idle?)
    {
      DeliverableSteps(cfg, es, i);
      var saved := Run(cfg, es[..i]).saved;
      WellFormedTolerated(Held(saved) + es[i].chunk, saved.Idle?);
    }
  }

  /** Such runs are those of Session. */
  lemma {:induction false} PlayIsRun(cfg: Config, es: seq<Event>)
    requires Specified(cfg, es)
    ensures Play(cfg, es) == Some(Live(Run(cfg, es), [])) && ValidSaved(Run(cfg, es).saved)
    decreases |es|
  {
    hide Tolerated, TypedStream, CallOf;
    if es != [] {
      var init, e := es[..|es| - 1], es[|es| - 1];
      forall i | 0 <= i < |init| && init[i].Read?
        ensures var saved := Run(cfg, init[..i]).saved;
                && TypedStream(Held(saved) + init[i].chunk)
                && Tolerated(Held(saved) + init[i].chunk, saved.Idle?)
      {
        assert init[..i] == es[..i];
      }
      PlayIsRun(cfg, init);
      if e.Read? {
        var st := Run(cfg, init);
        CallIffTolerated(st.saved, e.chunk);
        OneShotIsStep(cfg, st, e.chunk);
        SettledIsValid(Held(st.saved) + e.chunk);
        assert [] + e.chunk == e.chunk;
      }
    }
  }

  /** A call that is a one-shot parse is a Read step of Session. */
  lemma OneShotIsStep(cfg: Config, st: State, chunk: bytes)
    ensures AfterCall(cfg, st, OneShot(Held(st.saved) + chunk)) == Step(cfg, st, Read(chunk))
  {
  }

  lemma OpeningPrinted(cfg: Config)
    ensures PrintAll(Opening(cfg)) == [] + Print(Sub(cfg.topic, cfg.channel)) + Print(Rdy(cfg.rdy))
  {
    hide Print;
    PrintAllSnoc([Sub(cfg.topic, cfg.channel)], Rdy(cfg.rdy));
    CollectOne(Print, Sub(cfg.topic, cfg.channel));
  }

  class Subscriber {
    const cfg: Config
    const bev: Bufferevent
    const queue: MessageQueue

    // readcb's static variables, and msg->size
    var isFirst: bool
    var l: int
    var message: array<byte>
    var size: int

    ghost var written: seq<Command>  // what the output buffer holds, as commands
    ghost var handed: seq<Handed>  // the callback invocations so far

    ghost predicate Consistent()
      reads this`written, bev`output, queue, queue.live
    {
      && queue.Valid() && queue.NoLeak()
      && bev.output == PrintAll(written)
      && IsInt32(cfg.rdy) && IsInt32(cfg.delayTime)
      && Acknowledgeable(queue.Contents())
    }

    /** The block of the current frame, still clear behind the bytes read. */
    ghost predicate Buffered()
      reads this`l, this`size, this`message, message
    {
      && 0 <= size < MAX_FRAME && message.Length == Block(size)
      && forall i :: 0 <= l <= i < message.Length ==> message[i] == 0
    }

    /** Between two calls. */
    ghost predicate Valid()
      reads this, bev, queue, queue.live, message
    {
      Looping() && if isFirst then l == 0 else l < size
    }

    /** Between two turns of readcb's loop. */
    ghost predicate Looping()
      reads this, bev, queue, queue.live, message
    {
      Consistent() && 0 <= l < MAX_FRAME && (!isFirst ==> l <= size && Buffered())
    }

    ghost function VarsNow(): Vars
      requires 0 <= l && (!isFirst ==> 0 <= size && l <= message.Length)
      reads this`isFirst, this`size, this`l, this`message, message
    {
      if isFirst then First(l) else Within(size, message[..l])
    }

    ghost predicate SavedStateDefined()
      reads this`isFirst, this`size, this`l, this`message
    {
      isFirst || (0 <= size && 0 <= l <= message.Length)
    }

    ghost function SavedState(): Saved
      requires SavedStateDefined()
      reads this`isFirst, this`size, this`l, this`message, message
    {
      if isFirst then Idle else Partial(size, message[..l])
    }

    ghost function View(): State
      requires Valid()
      reads this, bev, queue, queue.live, message
    {
      State(SavedState(), queue.Contents(), written, handed)
    }

    /** subscribe's set-up followed by the connected branch of conn_eventcb. */
    constructor Connected(cfg: Config)
      requires IsInt32(cfg.rdy) && IsInt32(cfg.delayTime)
      requires |cfg.topic| + |cfg.channel| <= 121
      ensures Valid() && View() == Initial(cfg) && this.cfg == cfg && bev.input == []
      ensures bev.output == [0x53, 0x55, 0x42, 0x20] + cfg.topic + [0x20] + cfg.channel + [0x0A]
                            + [0x52, 0x44, 0x59, 0x20] + Decimal(cfg.rdy) + [0x0A]
      ensures fresh(bev) && fresh(queue) && fresh(queue.live) && fresh(message)
    {
      hide PrintAll, Print, Decimal, MessageQueue.Valid;
      this.cfg := cfg;
      bev := new Bufferevent([]);
      queue := new MessageQueue();
      isFirst, l, size, message := true, 0, 0, new byte[0];
      written, handed := Opening(cfg), [];
      new;
      NsqSubscribe(bev, cfg.topic, cfg.channel);
      NsqReady(bev, cfg.rdy);
      OpeningAscii(cfg);
      OpeningPrinted(cfg);
    }

    /** The start of a frame: whatever is there of the four size bytes, and a buffer for the frame. */
    method BeginFrame()
      requires PaddedHead(bev.input) < MAX_FRAME
      modifies this`size, this`message, bev`input
      ensures size == PaddedHead(old(bev.input)) && bev.input == old(bev.input)[Min(4, |old(bev.input)|)..]
      ensures fresh(message) && message.Length == Block(size)
      ensures forall i :: 0 <= i < message.Length ==> message[i] == 0
    {
      size := ReadSize();
      message := new byte[Block(size)](_ => 0);
    }

    method ReadSize() returns (n: int)
      requires PaddedHead(bev.input) < MAX_FRAME
      modifies bev`input
      ensures n == PaddedHead(old(bev.input)) && bev.input == old(bev.input)[Min(4, |old(bev.input)|)..]
    {
      var msgSize := new byte[4](_ => 0);
      ghost var zeros := msgSize[..];
      var sizeL := bev.Read(msgSize, 0, 4);
      assert zeros[sizeL..] == Zeros(4 - sizeL);
      assert msgSize[..] == Pad(old(bev.input)[..sizeL]);
      if sizeL < 4 {
        assert old(bev.input)[..sizeL] == old(bev.input);
      }
      n := LoadI32(msgSize[..]);
    }

    /** One read behind the bytes already there: of what the frame still misses, or with a stale l of anything. */
    method ReadPiece()
      requires 0 <= l < MAX_FRAME && Buffered()
      requires l <= size || bev.input == [] || l + |bev.input| <= message.Length
      modifies this`l, message, bev`input
      ensures var k := if old(l) <= size then Min(size - old(l), |old(bev.input)|) else |old(bev.input)|;
              && l == old(l) + k && bev.input == old(bev.input)[k..]
              && (old(l) <= size ==> message[..l] == old(message[..l]) + old(bev.input)[..k] && Buffered())
    {
      ghost var got := if l <= message.Length then message[..l] else [];
      var k := bev.Read(message, l, SizeT(size - l));
      l := l + k;
      if l <= size {
        assert message[..l] == message[..][..l];
      }
    }

    /** The top of readcb's loop: the header of a new frame, and what is there of the body. */
    method Fill()
      requires Looping() && !TurnOf(VarsNow(), bev.input).Overruns? && !TurnOf(VarsNow(), bev.input).NoMemory?
      modifies this`size, this`l, this`message, message, bev`input
      ensures message == old(message) || fresh(message)
      ensures 0 <= l < MAX_FRAME
      ensures var t := old(TurnOf(VarsNow(), bev.input));
              if l <= size then
                Buffered() && t == BodyEnd(size, message[..l], bev.input, isFirst)
              else
                isFirst && t == Breaks(Idle, bev.input)
    {
      hide Consistent, PaddedHead;
      if isFirst {
        BeginFrame();
        assert l <= size ==> message[..l] == Zeros(l);
      }
      ReadPiece();
    }

    /** A complete frame f: a heartbeat is answered at once, a message is queued, other types do nothing. */
    method DispatchFrame(ghost f: bytes) returns (frameType: int)
      requires Consistent() && Buffered() && f == message[..size]
      requires l == size && (PaddedHead(f) == MESSAGE ==> size >= MESSAGE_PREFIX)
      modifies this`written, bev`output, queue, queue.live
      ensures Consistent()
      ensures frameType == RESPONSE <==> PaddedHead(f) == RESPONSE
      ensures frameType == MESSAGE <==> PaddedHead(f) == MESSAGE
      ensures written == old(written) + NopOf(f)
      ensures queue.Contents() == old(queue.Contents()) + Enqueued(cfg, [f])
      ensures Unhandled(f) ==> bev.output == old(bev.output) && queue.Contents() == old(queue.Contents())
      ensures fresh(queue.live - old(queue.live))
    {
      hide PrintAll, Acknowledgeable, DecodeMessage, ToPending, MessageQueue.Valid, MessageQueue.Contents;
      TypeInBlock(message[..], size);
      assert message[..][..size] == f;
      frameType := LoadI32(message[..]);
      EnqueuedOne(cfg, f);
      if frameType == RESPONSE {
        AnswerHeartbeat(f);
      } else if frameType == MESSAGE {
        QueueMessage(f);
      }
    }

    /** Of the responses only the heartbeat, told by its size, is answered. */
    method AnswerHeartbeat(ghost f: bytes)
      requires bev.output == PrintAll(written)
      requires |f| == size && (size == 15 ==> U32(f, 0) == RESPONSE)
      modifies this`written, bev`output
      ensures bev.output == PrintAll(written) && written == old(written) + NopOf(f)
    {
      if size == 15 {
        var nop := new byte[] [0x4E, 0x4F, 0x50, 0x0A];  // "NOP\n"
        assert nop[..4] == Print(Nop);
        bev.Write(nop, 4);
        PrintAllSnoc(written, Nop);
        written := written + [Nop];
      }
    }

    /** The fields of a business message, copied out of the frame. */
    method CopyFields(ghost f: bytes) returns (m: Pending)
      requires 4 <= size < message.Length && f == message[..size] && IsMessage(f)
      ensures m == ToPending(cfg, DecodeMessage(f))
    {
      var timestamp := LoadU64(message[4..]);
      var attempts := LoadI16(message[12..]);
      var messageId := message[14..30];
      var body := message[30..size];
      m := Pending(messageId, body, AsSigned(timestamp, 64), attempts, cfg.delayTime, cfg.autoFinish);
    }

    method QueueMessage(ghost f: bytes)
      requires queue.Valid() && queue.NoLeak() && Acknowledgeable(queue.Contents()) && IsInt32(cfg.delayTime)
      requires 4 <= size < message.Length && f == message[..size] && IsMessage(f)
      modifies queue, queue.live
      ensures queue.Valid() && queue.NoLeak() && Acknowledgeable(queue.Contents())
      ensures queue.Contents() == old(queue.Contents()) + Enqueued(cfg, [f])
      ensures fresh(queue.live - old(queue.live))
    {
      EnqueuedOne(cfg, f);
      var m := CopyFields(f);
      queue.Enqueue(m);
    }

    /** What follows a complete frame: the variables are reset only in the branches of the two known types. */
    method EndFrame(ghost f: bytes) returns (more: bool)
      requires Consistent() && Buffered() && f == message[..size]
      requires l == size && (PaddedHead(f) == MESSAGE ==> size >= MESSAGE_PREFIX)
      modifies this`isFirst, this`l, this`size, this`written, bev`output, queue, queue.live
      ensures Consistent() && (more <==> !(PaddedHead(f) == RESPONSE && |f| == 0))
      ensures if Unhandled(f) then isFirst == old(isFirst) && l == size == old(size) else isFirst && l == 0
      ensures written == old(written) + NopOf(f)
      ensures queue.Contents() == old(queue.Contents()) + Enqueued(cfg, [f])
      ensures fresh(queue.live - old(queue.live))
    {
      hide NopOf, Enqueued, PrintAll, Acknowledgeable, MessageQueue.Valid, MessageQueue.Contents;
      var frameType := DispatchFrame(f);
      if frameType == RESPONSE || frameType == MESSAGE {
        l, isFirst := 0, true;
        if frameType == RESPONSE && size == 0 {
          return false;
        }
        size := 0;
      }
      return true;
    }

    /** One turn of readcb's loop: `more` unless it breaks; f is the frame completed. */
    method ReadFrame() returns (more: bool, ghost f: bytes)
      requires Looping() && !TurnOf(VarsNow(), bev.input).Overruns? && !TurnOf(VarsNow(), bev.input).NoMemory?
      modifies this, message, bev, queue, queue.live
      ensures Looping() && handed == old(handed)
      ensures var t := old(TurnOf(VarsNow(), bev.input));
              && (more <==> t.Goes?) && bev.input == t.rest
              && if more then f == t.frame && VarsNow() == t.vars else Valid() && SavedState() == t.saved
      ensures written == old(written) + if more then NopOf(f) else []
      ensures queue.Contents() == old(queue.Contents()) + if more then Enqueued(cfg, [f]) else []
      ensures message == old(message) || fresh(message)
      ensures fresh(queue.live - old(queue.live))
    {
      hide PaddedHead, NopOf, Enqueued, PrintAll, Acknowledgeable, Consistent, TurnOf;
      hide MessageQueue.Valid, MessageQueue.Contents, MessageQueue.NoLeak;
      f := [];
      more := false;
      Fill();
      if l < size {
        isFirst := false;
        return;
      }
      if l == size {
        f := message[..size];
        more := EndFrame(f);
        if !more {
          NothingDone(cfg, f);
          return;
        }
      } else {
        size, l, isFirst := 0, 0, true;
        return;
      }
      assert l != -1;
    }

    method Readcb()
      requires Valid() && CallOf(SavedState(), bev.input).end.Returns?
      modifies this, message, bev, queue, queue.live
      ensures var c := old(CallOf(SavedState(), bev.input));
              Valid() && View() == AfterCall(cfg, old(View()), c) && bev.input == c.end.rest
      ensures message == old(message) || fresh(message)
      ensures fresh(queue.live - old(queue.live))
    {
      hide Turns, TurnOf, PaddedHead, Nops, NopOf, Enqueued, PrintAll, Consistent, Acknowledgeable;
      hide MessageQueue.Valid, MessageQueue.Contents;
      ghost var before, goal, done: seq<bytes> := View(), CallOf(SavedState(), bev.input), [];
      NothingEffected(cfg);
      while true
        invariant Looping() && handed == old(handed)
        invariant var c := Turns(VarsNow(), bev.input); goal == Call(done + c.frames, c.end)
        invariant written == before.output + Nops(done)
        invariant queue.Contents() == before.queue + Enqueued(cfg, done)
        invariant message == old(message) || fresh(message)
        invariant fresh(queue.live - old(queue.live))
        decreases |bev.input|, if isFirst then 0 else 1
      {
        ghost var f: bytes;
        var more;
        TurnReturns(VarsNow(), bev.input);
        more, f := ReadFrame();
        if !more {
          assert done + [] == done;
          break;
        }
        EffectsAppend(cfg, done, f);
        done := done + [f];
      }
    }

    /** The FIN/REQ decision of process_business_message, after the callback returned. */
    method Acknowledge(m: Pending, success: bool)
      requires bev.output == PrintAll(written) && |m.id| == 16 && IsInt32(m.delayTime)
      modifies this`written, bev`output
      ensures bev.output == PrintAll(written)
      ensures written == old(written) + AckOf(Handed(m, success))
    {
      if m.autoFinish {
        AckFits(m, success);
        ghost var ack := AckOf(Handed(m, success))[0];
        if success {
          WriteFormatted(bev, Print(Fin(CString(m.id))), FIN_BUF_SIZE);
        } else {
          WriteFormatted(bev, Print(Req(CString(m.id), m.delayTime)), REQ_BUF_SIZE);
        }
        PrintAllSnoc(written, ack);
        written := written + [ack];
      }
    }

    /** The timer: at most one message is handed out, acknowledged, released and followed by RDY. */
    method ProcessMessageQueue(success: bool)
      requires Valid()
      modifies this`handed, this`written, bev`output, queue
      ensures Valid() && queue.live <= old(queue.live)
      ensures View() == Step(cfg, old(View()), Tick(success))
    {
      hide Acknowledgeable, PrintAll, AckOf, MessageQueue.Valid;
      ghost var before := queue.Contents();
      AcknowledgeableTail(before);
      var msg := queue.Dequeue();
      if msg != null {
        Acknowledge(msg.data, success);
        handed := handed + [Handed(msg.data, success)];
        queue.Free(msg);
        Ready();
      }
    }

    /** What libevent does for one event: new bytes behind those left unread, and readcb; or the timer. */
    method Callback(e: Event)
      requires Valid() && (e.Read? ==> CallOf(SavedState(), bev.input + e.chunk).end.Returns?)
      modifies this, message, bev, queue, queue.live
      ensures Valid() && Some(Live(View(), bev.input)) == PlayStep(cfg, old(Live(View(), bev.input)), e)
      ensures message == old(message) || fresh(message)
      ensures fresh(queue.live - old(queue.live))
    {
      hide Step, CallOf, PrintAll, Acknowledgeable, MessageQueue.Valid;
      match e
      case Read(chunk) =>
        bev.input := bev.input + chunk;
        Readcb();
      case Tick(success) =>
        ProcessMessageQueue(success);
    }

    method Ready()
      requires bev.output == PrintAll(written) && IsInt32(cfg.rdy)
      modifies this`written, bev`output
      ensures bev.output == PrintAll(written) && written == old(written) + [Rdy(cfg.rdy)]
    {
      NsqReady(bev, cfg.rdy);
      PrintAllSnoc(written, Rdy(cfg.rdy));
      written := written + [Rdy(cfg.rdy)];
    }
  }

  /**
   * subscribe's event loop over a finite list of callbacks, and its cleanup, as long as every call returns: the
   * object goes through the states of the play, whatever the frames.
   */
  method Subscribe(cfg: Config, es: seq<Event>) returns (s: Subscriber)
    requires IsInt32(cfg.rdy) && IsInt32(cfg.delayTime) && |cfg.topic| + |cfg.channel| <= 121
    requires Play(cfg, es).Some?
    ensures var st := Play(cfg, es).value.st;
            && s.handed == st.handed && s.bev.output == PrintAll(st.output)
            && s.SavedStateDefined() && s.SavedState() == st.saved
    ensures Specified(cfg, es) ==> Play(cfg, es).value.st == Run(cfg, es)
    ensures s.queue.Valid() && s.queue.Contents() == [] && s.queue.live == {}
  {
    hide Play, PlayStep, PrintAll, Acknowledgeable, MessageQueue.Valid;
    s := new Subscriber.Connected(cfg);
    PlayStart(cfg);
    for i := 0 to |es|
      invariant s.Valid() && s.cfg == cfg && Play(cfg, es[..i]) == Some(Live(s.View(), s.bev.input))
      invariant fresh(s) && fresh(s.bev) && fresh(s.queue) && fresh(s.queue.live) && fresh(s.message)
    {
      PlayPrefix(cfg, es, i);
      StepReturns(cfg, Live(s.View(), s.bev.input), es[i]);
      s.Callback(es[i]);
    }
    assert es[..|es|] == es;
    s.queue.Cleanup();
    if Specified(cfg, es) {
      PlayIsRun(cfg, es);
    }
  }

  lemma PlayStart(cfg: Config)
    ensures forall es: seq<Event> :: Play(cfg, es[..0]) == Some(Live(Initial(cfg), []))
  {
  }

  lemma StepReturns(cfg: Config, v: Live, e: Event)
    requires PlayStep(cfg, v, e).Some? && Resumable(v.st.saved)
    ensures e.Read? ==> CallOf(v.st.saved, v.unread + e.chunk).end.Returns?
  {
  }
}
