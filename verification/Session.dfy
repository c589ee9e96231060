/**
 * A subscriber connection as a state machine over its two callbacks: readcb (Read) and the
 * queue timer (Tick). The class in Subscriber.dfy refines Step; the laws of whole runs are here.
 */
module Session {
  import opened Bytes
  import opened Lists
  import opened Frames
  import opened Decoder
  import opened Commands

  datatype Config = Config(topic: bytes, channel: bytes, rdy: int, delayTime: int, autoFinish: bool)

  /** A pending_message_t without its link. */
  datatype Pending = Pending(id: bytes, body: bytes, timestamp: int, attempts: nat, delayTime: int, autoFinish: bool)

  /** A message given to the callback, and whether the call succeeded without an exception. */
  datatype Handed = Handed(msg: Pending, success: bool)

  datatype State = State(saved: Saved, queue: seq<Pending>, output: seq<Command>, handed: seq<Handed>)

  datatype Event = Read(chunk: bytes) | Tick(success: bool)

  /** What the connected branch of conn_eventcb puts into the output buffer. */
  function Opening(cfg: Config): seq<Command> {
    [Sub(cfg.topic, cfg.channel), Rdy(cfg.rdy)]
  }

  function Initial(cfg: Config): State {
    State(Idle, [], Opening(cfg), [])
  }

  function ToPending(cfg: Config, m: Message): Pending {
    Pending(m.id, m.body, m.timestamp, m.attempts, cfg.delayTime, cfg.autoFinish)
  }

  function Enqueuer(cfg: Config): Message -> seq<Pending> {
    m => [ToPending(cfg, m)]
  }

  function Enqueued(cfg: Config, fs: seq<bytes>): seq<Pending> {
    Collect(Enqueuer(cfg), Messages(fs))
  }

  function NopOf(f: bytes): seq<Command> {
    if IsHeartbeat(f) then [Nop] else []
  }

  function Nops(fs: seq<bytes>): seq<Command> {
    Collect(NopOf, fs)
  }

  /** FIN on success, otherwise REQ with the delay stored in the message; nothing without auto_finish. */
  function AckOf(h: Handed): seq<Command> {
    if !h.msg.autoFinish then []
    else if h.success then [Fin(CString(h.msg.id))]
    else [Req(CString(h.msg.id), h.msg.delayTime)]
  }

  function Step(cfg: Config, st: State, e: Event): State {
    match e
    case Read(chunk) =>
      var fed := Feed(st.saved, chunk);
      State(fed.saved, st.queue + Enqueued(cfg, fed.frames), st.output + Nops(fed.frames), st.handed)
    case Tick(success) =>
      if st.queue == [] then st
      else
        var h := Handed(st.queue[0], success);
        State(st.saved, st.queue[1..], st.output + AckOf(h) + [Rdy(cfg.rdy)], st.handed + [h])
  }

  function Run(cfg: Config, es: seq<Event>): State {
    if es == [] then Initial(cfg) else Step(cfg, Run(cfg, es[..|es| - 1]), es[|es| - 1])
  }

  function ReadOf(e: Event): seq<bytes> {
    if e.Read? then [e.chunk] else []
  }

  /** The chunks read in a run. */
  function Chunks(es: seq<Event>): seq<bytes> {
    Collect(ReadOf, es)
  }

  // ----- what an observer sees of the output -----

  function AckIn(c: Command): seq<Command> {
    if c.Fin? || c.Req? then [c] else []
  }

  function Acks(cs: seq<Command>): seq<Command> {
    Collect(AckIn, cs)
  }

  function NopIn(c: Command): seq<Command> {
    if c.Nop? then [c] else []
  }

  function RdyIn(c: Command): seq<Command> {
    if c.Rdy? then [c] else []
  }

  function MessageIn(h: Handed): seq<Pending> {
    [h.msg]
  }

  function HandedMessages(hs: seq<Handed>): seq<Pending> {
    Collect(MessageIn, hs)
  }

  // ----- laws of one step -----

  lemma ChunksSnoc(es: seq<Event>, e: Event)
    ensures Chunks(es + [e]) == Chunks(es) + ReadOf(e)
  {
    CollectAppend(ReadOf, es, [e]);
    CollectOne(ReadOf, e);
  }

  lemma {:induction false} NopsAreNops(fs: seq<bytes>)
    ensures |Nops(fs)| == Heartbeats(fs)
    ensures forall c :: c in Nops(fs) ==> c == Nop
    ensures Acks(Nops(fs)) == [] && Collect(RdyIn, Nops(fs)) == [] && |Collect(NopIn, Nops(fs))| == Heartbeats(fs)
  {
    if fs == [] {
    } else {
      NopsAreNops(fs[1..]);
      CollectAppend(AckIn, NopOf(fs[0]), Nops(fs[1..]));
      CollectAppend(RdyIn, NopOf(fs[0]), Nops(fs[1..]));
      CollectAppend(NopIn, NopOf(fs[0]), Nops(fs[1..]));
      CollectOne(AckIn, Nop);
      CollectOne(RdyIn, Nop);
      CollectOne(NopIn, Nop);
    }
  }

  lemma EnqueuedAppend(cfg: Config, a: seq<bytes>, b: seq<bytes>)
    ensures Enqueued(cfg, a + b) == Enqueued(cfg, a) + Enqueued(cfg, b)
    ensures Nops(a + b) == Nops(a) + Nops(b)
  {
    MessagesAppend(a, b);
    CollectAppend(Enqueuer(cfg), Messages(a), Messages(b));
    CollectAppend(NopOf, a, b);
  }

  lemma EnqueuedOne(cfg: Config, f: bytes)
    ensures Enqueued(cfg, [f]) == if IsMessage(f) then [ToPending(cfg, DecodeMessage(f))] else []
    ensures Nops([f]) == NopOf(f)
  {
    CollectOne(MessageOf, f);
    CollectOne(NopOf, f);
    if IsMessage(f) {
      CollectOne(Enqueuer(cfg), DecodeMessage(f));
    }
  }

  /** The commands one tick writes: at most one acknowledgement, then one RDY. */
  lemma TickWrites(h: Handed, rdy: int)
    ensures Acks(AckOf(h) + [Rdy(rdy)]) == AckOf(h)
    ensures Collect(RdyIn, AckOf(h) + [Rdy(rdy)]) == [Rdy(rdy)]
    ensures Collect(NopIn, AckOf(h) + [Rdy(rdy)]) == []
  {
    var a := AckOf(h);
    CollectAppend(AckIn, a, [Rdy(rdy)]);
    CollectAppend(RdyIn, a, [Rdy(rdy)]);
    CollectAppend(NopIn, a, [Rdy(rdy)]);
    CollectOne(AckIn, Rdy(rdy));
    CollectOne(RdyIn, Rdy(rdy));
    CollectOne(NopIn, Rdy(rdy));
    if a != [] {
      CollectOne(AckIn, a[0]);
      CollectOne(RdyIn, a[0]);
      CollectOne(NopIn, a[0]);
    }
  }

  // ----- laws of runs -----

  lemma RunSnoc(cfg: Config, es: seq<Event>, e: Event)
    ensures Run(cfg, es + [e]) == Step(cfg, Run(cfg, es), e)
  {
    assert (es + [e])[..|es|] == es;
  }

  lemma OpeningAscii(cfg: Config)
    ensures PrintAll(Opening(cfg))
         == [0x53, 0x55, 0x42, 0x20] + cfg.topic + [0x20] + cfg.channel + [0x0A]
            + [0x52, 0x44, 0x59, 0x20] + Decimal(cfg.rdy) + [0x0A]
  {
    hide Decimal, Print;
    LinesAscii(cfg.topic, cfg.channel, [], cfg.rdy);
    assert Opening(cfg)[1..] == [Rdy(cfg.rdy)];
    CollectOne(Print, Rdy(cfg.rdy));
  }

  /** Whatever happens, the first two lines written are the subscription and the first RDY. */
  lemma {:induction false} SubscribedFirst(cfg: Config, es: seq<Event>)
    ensures [Sub(cfg.topic, cfg.channel), Rdy(cfg.rdy)] <= Run(cfg, es).output
  {
    if es != [] {
      SubscribedFirst(cfg, es[..|es| - 1]);
    }
  }

  /**
   * One timer call with a message waiting: the oldest is handed over with the outcome of this very call, FIN is
   * written if it succeeded and REQ with the message's delay if not, unless auto_finish is off, and then RDY.
   */
  lemma TickVerdict(cfg: Config, es: seq<Event>, success: bool)
    ensures var v, w := Run(cfg, es), Run(cfg, es + [Tick(success)]);
            if v.queue == [] then w == v
            else
              var m := v.queue[0];
              && w.saved == v.saved && w.queue == v.queue[1..] && w.handed == v.handed + [Handed(m, success)]
              && (!m.autoFinish ==> w.output == v.output + [Rdy(cfg.rdy)])
              && (m.autoFinish && success ==> w.output == v.output + [Fin(CString(m.id)), Rdy(cfg.rdy)])
              && (m.autoFinish && !success ==>
                    w.output == v.output + [Req(CString(m.id), m.delayTime), Rdy(cfg.rdy)])
  {
    RunSnoc(cfg, es, Tick(success));
  }

  /** The outcomes of the ticks that found a message, in order. */
  function Outcomes(cfg: Config, es: seq<Event>): seq<bool> {
    if es == [] then []
    else
      var init, e := es[..|es| - 1], es[|es| - 1];
      Outcomes(cfg, init) + if e.Tick? && Run(cfg, init).queue != [] then [e.success] else []
  }

  /** The k-th message handed over has the outcome of the k-th tick that found one. */
  lemma {:induction false} HandedOutcomes(cfg: Config, es: seq<Event>)
    ensures |Outcomes(cfg, es)| == |Run(cfg, es).handed|
    ensures forall k :: 0 <= k < |Outcomes(cfg, es)| ==> Run(cfg, es).handed[k].success == Outcomes(cfg, es)[k]
  {
    if es != [] {
      HandedOutcomes(cfg, es[..|es| - 1]);
    }
  }

  /**
   * In every run: one acknowledgement per message given to the callback, in that order, FIN exactly
   * when the call succeeded; and one RDY per message after the opening one.
   */
  lemma {:induction false} AcknowledgedInOrder(cfg: Config, es: seq<Event>)
    ensures Acks(Run(cfg, es).output) == Collect(AckOf, Run(cfg, es).handed)
    ensures |Collect(RdyIn, Run(cfg, es).output)| == 1 + |Run(cfg, es).handed|
  {
    if es == [] {
      assert Acks(Opening(cfg)) == [] && Collect(RdyIn, Opening(cfg)) == [Rdy(cfg.rdy)] by {
        CollectAppend(AckIn, [Sub(cfg.topic, cfg.channel)], [Rdy(cfg.rdy)]);
        CollectAppend(RdyIn, [Sub(cfg.topic, cfg.channel)], [Rdy(cfg.rdy)]);
      }
    } else {
      var before, e := Run(cfg, es[..|es| - 1]), es[|es| - 1];
      AcknowledgedInOrder(cfg, es[..|es| - 1]);
      if e.Read? {
        var fs := Feed(before.saved, e.chunk).frames;
        NopsAreNops(fs);
        CollectAppend(AckIn, before.output, Nops(fs));
        CollectAppend(RdyIn, before.output, Nops(fs));
      } else if before.queue != [] {
        var h := Handed(before.queue[0], e.success);
        var written := AckOf(h) + [Rdy(cfg.rdy)];
        assert before.output + AckOf(h) + [Rdy(cfg.rdy)] == before.output + written;
        TickWrites(h, cfg.rdy);
        CollectAppend(AckIn, before.output, written);
        CollectAppend(RdyIn, before.output, written);
        CollectAppend(AckOf, before.handed, [h]);
        CollectOne(AckOf, h);
      }
    }
  }

  /** st accounts for what the decoder produced: nothing lost, duplicated or reordered. */
  predicate Accounted(cfg: Config, st: State, fed: Fed) {
    && st.saved == fed.saved
    && HandedMessages(st.handed) + st.queue == Enqueued(cfg, fed.frames)
    && |Collect(NopIn, st.output)| == Heartbeats(fed.frames)
  }

  lemma NopsCounted(out: seq<Command>, before: seq<bytes>, fs: seq<bytes>)
    requires |Collect(NopIn, out)| == Heartbeats(before)
    ensures |Collect(NopIn, out + Nops(fs))| == Heartbeats(before + fs)
  {
    MessagesAppend(before, fs);
    NopsAreNops(fs);
    CollectAppend(NopIn, out, Nops(fs));
  }

  lemma ReadKeeps(cfg: Config, st: State, fed: Fed, c: bytes)
    requires Accounted(cfg, st, fed)
    ensures var more := Feed(fed.saved, c);
            Accounted(cfg, Step(cfg, st, Read(c)), Fed(fed.frames + more.frames, more.saved))
  {
    var fs := Feed(st.saved, c).frames;
    NopsCounted(st.output, fed.frames, fs);
    EnqueuedAppend(cfg, fed.frames, fs);
    var handed := HandedMessages(st.handed);
    assert handed + (st.queue + Enqueued(cfg, fs)) == (handed + st.queue) + Enqueued(cfg, fs);
  }

  lemma TickOutput(cfg: Config, out: seq<Command>, h: Handed)
    ensures Collect(NopIn, out + AckOf(h) + [Rdy(cfg.rdy)]) == Collect(NopIn, out)
  {
    var written := AckOf(h) + [Rdy(cfg.rdy)];
    assert out + AckOf(h) + [Rdy(cfg.rdy)] == out + written;
    TickWrites(h, cfg.rdy);
    CollectAppend(NopIn, out, written);
  }

  lemma TickKeeps(cfg: Config, st: State, fed: Fed, success: bool)
    requires Accounted(cfg, st, fed)
    ensures Accounted(cfg, Step(cfg, st, Tick(success)), fed)
  {
    if st.queue != [] {
      var h := Handed(st.queue[0], success);
      CollectAppend(MessageIn, st.handed, [h]);
      CollectOne(MessageIn, h);
      TickOutput(cfg, st.output, h);
      assert st.queue == [h.msg] + st.queue[1..];
    }
  }

  /** Nothing decoded is lost, duplicated or reordered between the decoder and the callback. */
  lemma {:induction false} NothingLost(cfg: Config, es: seq<Event>)
    ensures Accounted(cfg, Run(cfg, es), FeedAll(Chunks(es)))
  {
    if es == [] {
      CollectAppend(NopIn, [Sub(cfg.topic, cfg.channel)], [Rdy(cfg.rdy)]);
    } else {
      var init, e := es[..|es| - 1], es[|es| - 1];
      assert es == init + [e];
      NothingLost(cfg, init);
      ChunksSnoc(init, e);
      match e
      case Read(c) =>
        ReadKeeps(cfg, Run(cfg, init), FeedAll(Chunks(init)), c);
        FeedAfter(Chunks(init), c);
      case Tick(success) =>
        TickKeeps(cfg, Run(cfg, init), FeedAll(Chunks(init)), success);
        assert Chunks(init) + [] == Chunks(init);
    }
  }

  /** The reads of a run that readcb is specified for. */
  predicate Deliverable(es: seq<Event>) {
    WellFormed(Received(Chunks(es))) && NoHeaderCut(Chunks(es))
  }

  lemma DeliverableSnoc(es: seq<Event>, e: Event)
    requires Deliverable(es + [e])
    ensures Deliverable(es)
    ensures e.Read? ==> WellFormed(Held(FeedAll(Chunks(es)).saved) + e.chunk)
  {
    ChunksSnoc(es, e);
    if e.Read? {
      var all := Chunks(es) + [e.chunk];
      assert all[..|all| - 1] == Chunks(es);
      WellFormedAppend(Received(Chunks(es)), e.chunk);
      FeedOne(all);
    } else {
      assert Chunks(es) + [] == Chunks(es);
    }
  }

  /** Every step of a deliverable run meets readcb's precondition. */
  lemma {:induction false} DeliverableSteps(cfg: Config, es: seq<Event>, i: nat)
    requires Deliverable(es) && i < |es|
    ensures es[i].Read? ==> WellFormed(Held(Run(cfg, es[..i]).saved) + es[i].chunk)
    ensures Run(cfg, es[..i + 1]) == Step(cfg, Run(cfg, es[..i]), es[i])
    decreases |es|
  {
    var init := es[..|es| - 1];
    assert es == init + [es[|es| - 1]];
    DeliverableSnoc(init, es[|es| - 1]);
    if i < |init| {
      DeliverableSteps(cfg, init, i);
      assert init[..i] == es[..i] && init[..i + 1] == es[..i + 1];
    } else {
      NothingLost(cfg, init);
      assert es[..i] == init && es[..i + 1] == es;
    }
  }

  /**
   * The whole connection: for every interleaving of reads and ticks in which no read ends inside a
   * header, the messages given to the callback followed by the queue are the messages of the stream
   * received, parsed at once; as many NOPs were written as complete heartbeats were received,
   * whatever is queued; and the saved state is the unfinished rest.
   */
  lemma RunMeetsStream(cfg: Config, es: seq<Event>)
    requires Deliverable(es)
    ensures var st, p := Run(cfg, es), Parse(Received(Chunks(es)));
            && HandedMessages(st.handed) + st.queue == Enqueued(cfg, p.frames)
            && |Collect(NopIn, st.output)| == Heartbeats(p.frames)
            && Held(st.saved) == p.rest
  {
    NothingLost(cfg, es);
    ChunkingIndependence(Chunks(es));
  }

  lemma EnqueuedPointwise(cfg: Config, fs: seq<bytes>)
    ensures |Enqueued(cfg, fs)| == |Messages(fs)|
    ensures forall i :: 0 <= i < |Messages(fs)| ==> Enqueued(cfg, fs)[i] == ToPending(cfg, Messages(fs)[i])
  {
    CollectSingletons(Enqueuer(cfg), Messages(fs));
  }

  lemma HandedPointwise(hs: seq<Handed>)
    ensures |HandedMessages(hs)| == |hs| && forall i :: 0 <= i < |hs| ==> HandedMessages(hs)[i] == hs[i].msg
  {
    CollectSingletons(MessageIn, hs);
  }

  /** The i-th message handed over is the i-th of the stream. */
  lemma HandedAreStream(cfg: Config, es: seq<Event>)
    requires Deliverable(es)
    ensures var st, ms := Run(cfg, es), Messages(Parse(Received(Chunks(es))).frames);
            && |st.handed| + |st.queue| == |ms|
            && forall i :: 0 <= i < |st.handed| ==> st.handed[i].msg == ToPending(cfg, ms[i])
  {
    hide Run, Parse, Deliverable, Messages, Enqueued, HandedMessages;
    var st, fs := Run(cfg, es), Parse(Received(Chunks(es))).frames;
    RunMeetsStream(cfg, es);
    EnqueuedPointwise(cfg, fs);
    HandedPointwise(st.handed);
    assert forall i :: 0 <= i < |st.handed| ==> (HandedMessages(st.handed) + st.queue)[i] == st.handed[i].msg;
  }

  /**
   * Exactly once, in order, and with the right verdict: with auto_finish on, the i-th FIN or REQ written
   * is for the i-th message of the stream, FIN if and only if the i-th tick that found a message succeeded, and
   * REQ carries the configured delay; with auto_finish off none is written.
   */
  lemma StreamAcknowledged(cfg: Config, es: seq<Event>)
    requires Deliverable(es)
    ensures var st, ms, acks := Run(cfg, es), Messages(Parse(Received(Chunks(es))).frames), Acks(Run(cfg, es).output);
            && |st.handed| == |Outcomes(cfg, es)| <= |ms|
            && (!cfg.autoFinish ==> acks == [])
            && (cfg.autoFinish ==> |acks| == |st.handed| && forall i :: 0 <= i < |acks| ==>
                  acks[i] == if Outcomes(cfg, es)[i] then Fin(CString(ms[i].id))
                             else Req(CString(ms[i].id), cfg.delayTime))
  {
    hide Run, Outcomes, Parse, Deliverable, Messages, Acks;
    var st := Run(cfg, es);
    HandedOutcomes(cfg, es);
    HandedAreStream(cfg, es);
    AcknowledgedInOrder(cfg, es);
    assert forall h :: h in st.handed ==> h.msg.autoFinish == cfg.autoFinish;
    if cfg.autoFinish {
      CollectSingletons(AckOf, st.handed);
    } else {
      CollectEmpty(AckOf, st.handed);
    }
  }

  /**
   * A heartbeat is answered in the call that reads its last byte, whatever is queued; a read writes nothing
   * else, and no callback runs there.
   */
  lemma HeartbeatsAnsweredAtOnce(cfg: Config, es: seq<Event>, c: bytes)
    requires Deliverable(es + [Read(c)])
    ensures var before, after := Run(cfg, es), Run(cfg, es + [Read(c)]);
            && |after.output| - |before.output|
               == Heartbeats(Parse(Received(Chunks(es)) + c).frames) - Heartbeats(Parse(Received(Chunks(es))).frames)
            && before.output <= after.output
            && (forall i :: |before.output| <= i < |after.output| ==> after.output[i] == Nop)
            && after.handed == before.handed
  {
    hide Run, Parse, Deliverable, Received, Chunks;
    DeliverableSnoc(es, Read(c));
    RunMeetsStream(cfg, es);
    RunMeetsStream(cfg, es + [Read(c)]);
    ReadWrites(cfg, es, c);
    ReceivedSnoc(es, c);
  }

  lemma ReadWrites(cfg: Config, es: seq<Event>, c: bytes)
    ensures var before, after := Run(cfg, es), Run(cfg, es + [Read(c)]);
            && |after.output| - |before.output| == |Collect(NopIn, after.output)| - |Collect(NopIn, before.output)|
            && before.output <= after.output
            && (forall i :: |before.output| <= i < |after.output| ==> after.output[i] == Nop)
            && after.handed == before.handed
  {
    var before := Run(cfg, es);
    var fs := Feed(before.saved, c).frames;
    RunSnoc(cfg, es, Read(c));
    hide Run, Nops, Feed;
    NopsAreNops(fs);
    CollectAppend(NopIn, before.output, Nops(fs));
    assert forall i :: 0 <= i < |Nops(fs)| ==> Nops(fs)[i] in Nops(fs);
  }

  lemma ReceivedSnoc(es: seq<Event>, c: bytes)
    ensures Received(Chunks(es + [Read(c)])) == Received(Chunks(es)) + c
  {
    ChunksSnoc(es, Read(c));
    FeedAfter(Chunks(es), c);
  }

  /** One wire message, from nsqd's encoder to the callback, in any number of reads and ticks. */
  lemma WireToCallback(cfg: Config, m: Message, es: seq<Event>)
    requires ValidMessage(m) && NoHeaderCut(Chunks(es)) && Received(Chunks(es)) == Wire(EncodeMessage(m))
    ensures HandedMessages(Run(cfg, es).handed) + Run(cfg, es).queue
         == [Pending(m.id, m.body, m.timestamp, m.attempts, cfg.delayTime, cfg.autoFinish)]
  {
    var f := EncodeMessage(m);
    DecodeEncode(m);
    ParseOne(f);
    RunMeetsStream(cfg, es);
    CollectOne(MessageOf, f);
    CollectOne(Enqueuer(cfg), m);
  }

  // ----- the bytes written -----

  predicate PrintableConfig(cfg: Config) {
    Word(cfg.topic) && Word(cfg.channel) && IsInt32(cfg.rdy) && IsInt32(cfg.delayTime)
  }

  predicate PrintableIds(ps: seq<Pending>) {
    forall p :: p in ps ==> Word(CString(p.id)) && IsInt32(p.delayTime)
  }

  lemma {:induction false} OutputPrintable(cfg: Config, es: seq<Event>)
    requires PrintableConfig(cfg)
    requires PrintableIds(HandedMessages(Run(cfg, es).handed))
    ensures forall c :: c in Run(cfg, es).output ==> Printable(c)
  {
    if es != [] {
      var before, e := Run(cfg, es[..|es| - 1]), es[|es| - 1];
      if e.Read? {
        NopsAreNops(Feed(before.saved, e.chunk).frames);
      } else if before.queue != [] {
        var h := Handed(before.queue[0], e.success);
        CollectAppend(MessageIn, before.handed, [h]);
        CollectOne(MessageIn, h);
        assert h.msg in HandedMessages(before.handed) + [h.msg];
      }
      OutputPrintable(cfg, es[..|es| - 1]);
    }
  }

  /** nsqd can read the acknowledgements of a run back from the bytes on the wire. */
  lemma BytesCarryAcks(cfg: Config, es: seq<Event>)
    requires PrintableConfig(cfg) && Deliverable(es)
    requires forall m :: m in Messages(Parse(Received(Chunks(es))).frames) ==> Word(CString(m.id))
    ensures var read := ReadAll(PrintAll(Run(cfg, es).output));
            read.Some? && Acks(read.value) == Collect(AckOf, Run(cfg, es).handed)
  {
    hide Deliverable, Run, Messages, Parse, HandedMessages, Printable, AckOf, Word;
    var hs := Run(cfg, es).handed;
    HandedAreStream(cfg, es);
    HandedPointwise(hs);
    assert PrintableIds(HandedMessages(hs));
    OutputPrintable(cfg, es);
    ReadAllInverse(Run(cfg, es).output);
    AcknowledgedInOrder(cfg, es);
  }
}
