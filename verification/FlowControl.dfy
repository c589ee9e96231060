/**
 * A subscriber connected to an nsqd by two ordered byte and command streams, with auto_finish on.
 * nsqd sends a message only while fewer than RDY are unacknowledged (section "RDY" of the
 * NSQ TCP Protocol Spec); bytes travel and are read in pieces of any size.
 */
module FlowControl {
  import opened Bytes
  import opened Lists
  import opened Frames
  import opened Decoder
  import opened Commands
  import opened Session

  datatype World = World(
    client: State,
    down: bytes,  // sent by nsqd, not yet read by the client
    accepted: nat,  // how many of the commands written nsqd has processed
    unacked: seq<bytes>,  // ids nsqd considers in flight, oldest first
    ready: int)  // the RDY count nsqd has

  datatype Act =
    | Send(m: Message)
    | SendHeartbeat
    | Deliver(n: nat)
    | Process(success: bool)
    | Accept

  function Start(cfg: Config): World {
    World(Initial(cfg), [], 0, [], 0)
  }

  predicate MaySend(w: World) {
    |w.unacked| < w.ready
  }

  predicate Sendable(w: World, m: Message) {
    ValidMessage(m) && m.id !in w.unacked && NUL !in m.id
  }

  predicate Enabled(w: World, a: Act) {
    match a
    case Send(m) => MaySend(w) && Sendable(w, m)
    case SendHeartbeat => true
    case Deliver(n) => 0 < n <= |w.down| && !CutsHeader(Held(w.client.saved) + w.down[..n])
    case Process(_) => true
    case Accept => w.accepted < |w.client.output|
  }

  function Remove(ids: seq<bytes>, id: bytes): seq<bytes> {
    if ids == [] then [] else if ids[0] == id then ids[1..] else [ids[0]] + Remove(ids[1..], id)
  }

  /** nsqd processes one command. */
  function Accepted(w: World, c: Command): World {
    match c
    case Fin(id) => w.(unacked := Remove(w.unacked, id), accepted := w.accepted + 1)
    case Req(id, _) => w.(unacked := Remove(w.unacked, id), accepted := w.accepted + 1)
    case Rdy(count) => w.(ready := count, accepted := w.accepted + 1)
    case _ => w.(accepted := w.accepted + 1)
  }

  function Next(cfg: Config, w: World, a: Act): World
    requires Enabled(w, a)
  {
    match a
    case Send(m) => w.(down := w.down + Wire(EncodeMessage(m)), unacked := w.unacked + [m.id])
    case SendHeartbeat => w.(down := w.down + Wire(EncodeResponse(HEARTBEAT)))
    case Deliver(n) => w.(client := Step(cfg, w.client, Read(w.down[..n])), down := w.down[n..])
    case Process(success) => w.(client := Step(cfg, w.client, Tick(success)))
    case Accept => Accepted(w, w.client.output[w.accepted])
  }

  /** w is reached from v by these steps. */
  ghost predicate Leads(cfg: Config, v: World, acts: seq<Act>, w: World)
    decreases |acts|
  {
    if acts == [] then w == v
    else Enabled(v, acts[0]) && Leads(cfg, Next(cfg, v, acts[0]), acts[1..], w)
  }

  // ----- where the unacknowledged messages are -----

  function AckIdOf(c: Command): seq<bytes> {
    if c.Fin? || c.Req? then [c.id] else []
  }

  function FrameIdOf(f: bytes): seq<bytes> {
    if IsMessage(f) then [DecodeMessage(f).id] else []
  }

  function QueueIdOf(p: Pending): seq<bytes> {
    [p.id]
  }

  function AckIds(cs: seq<Command>): seq<bytes> { Collect(AckIdOf, cs) }
  function FrameIds(fs: seq<bytes>): seq<bytes> { Collect(FrameIdOf, fs) }
  function QueueIds(ps: seq<Pending>): seq<bytes> { Collect(QueueIdOf, ps) }

  /** Bytes between nsqd and the client's decoder, the unfinished frame included. */
  function Undecoded(w: World): bytes {
    Held(w.client.saved) + w.down
  }

  function InTransit(w: World): seq<Command> {
    if w.accepted <= |w.client.output| then w.client.output[w.accepted..] else []
  }

  predicate Distinct(ids: seq<bytes>) {
    forall i, j :: 0 <= i < j < |ids| ==> ids[i] != ids[j]
  }

  /** Acknowledgements in transit, then the queue, then undecoded frames: exactly nsqd's view, in order. */
  predicate Conserved(w: World) {
    && ValidSaved(w.client.saved)
    && WellFormed(Undecoded(w)) && Parse(Undecoded(w)).rest == []
    && w.unacked == AckIds(InTransit(w)) + QueueIds(w.client.queue) + FrameIds(Parse(Undecoded(w)).frames)
    && Distinct(w.unacked)
  }

  /** The queued messages will be acknowledged by id. */
  predicate Acknowledging(w: World) {
    && (forall p :: p in w.client.queue ==> p.autoFinish && NUL !in p.id)
    && (forall f :: f in Parse(Undecoded(w)).frames && IsMessage(f) ==> NUL !in DecodeMessage(f).id)
  }

  predicate Granted(cfg: Config, w: World) {
    && w.accepted <= |w.client.output|
    && Opening(cfg) <= w.client.output
    && (forall c :: c in w.client.output && c.Rdy? ==> c.count == cfg.rdy)
    && w.ready == (if w.accepted < 2 then 0 else cfg.rdy)
    && |w.unacked| <= cfg.rdy
  }

  predicate Inv(cfg: Config, w: World) {
    Conserved(w) && Acknowledging(w) && Granted(cfg, w)
  }

  // ----- each step keeps it -----

  lemma {:induction false} EnqueuedIds(cfg: Config, fs: seq<bytes>)
    ensures QueueIds(Enqueued(cfg, fs)) == FrameIds(fs)
    ensures cfg.autoFinish ==> forall p :: p in Enqueued(cfg, fs) ==> p.autoFinish
    ensures forall p :: p in Enqueued(cfg, fs) ==> exists f :: f in fs && IsMessage(f) && p.id == DecodeMessage(f).id
  {
    if fs == [] {
    } else {
      EnqueuedIds(cfg, fs[1..]);
      assert fs == [fs[0]] + fs[1..];
      EnqueuedAppend(cfg, [fs[0]], fs[1..]);
      EnqueuedOne(cfg, fs[0]);
      CollectAppend(QueueIdOf, Enqueued(cfg, [fs[0]]), Enqueued(cfg, fs[1..]));
      if IsMessage(fs[0]) {
        CollectOne(QueueIdOf, ToPending(cfg, DecodeMessage(fs[0])));
      }
    }
  }

  lemma {:induction false} NopsAckNothing(fs: seq<bytes>)
    ensures AckIds(Nops(fs)) == []
  {
    if fs == [] {
    } else {
      NopsAckNothing(fs[1..]);
      CollectAppend(AckIdOf, NopOf(fs[0]), Nops(fs[1..]));
      CollectOne(AckIdOf, Nop);
    }
  }

  /** nsqd appends a frame: it comes last among the undecoded ones. */
  lemma WireAppended(w: World, f: bytes)
    requires WellFormed(Undecoded(w)) && Parse(Undecoded(w)).rest == [] && Handled(f)
    ensures var v := w.(down := w.down + Wire(f));
            WellFormed(Undecoded(v)) && Parse(Undecoded(v)) == Parsed(Parse(Undecoded(w)).frames + [f], [])
    ensures FrameIds(Parse(Undecoded(w)).frames + [f]) == FrameIds(Parse(Undecoded(w)).frames) + FrameIdOf(f)
  {
    hide Parse, WellFormed, Handled, Wire, FrameIdOf, Held;
    var u := Undecoded(w);
    WireBehind(u, f);
    assert Undecoded(w.(down := w.down + Wire(f))) == u + Wire(f);
    CollectAppend(FrameIdOf, Parse(u).frames, [f]);
    CollectOne(FrameIdOf, f);
  }

  lemma WireBehind(u: bytes, f: bytes)
    requires WellFormed(u) && Parse(u).rest == [] && Handled(f)
    ensures WellFormed(u + Wire(f)) && Parse(u + Wire(f)) == Parsed(Parse(u).frames + [f], [])
  {
    hide Parse, WellFormed, Handled, Wire;
    ParseOne(f);
    ParseAppend(u, Wire(f));
    WellFormedAppend(u, Wire(f));
    assert [] + Wire(f) == Wire(f);
  }

  lemma MessageSent(m: Message)
    requires ValidMessage(m)
    ensures Handled(EncodeMessage(m)) && FrameIdOf(EncodeMessage(m)) == [m.id]
    ensures IsMessage(EncodeMessage(m)) && DecodeMessage(EncodeMessage(m)).id == m.id
  {
    DecodeEncode(m);
  }

  lemma HeartbeatSent()
    ensures var f := EncodeResponse(HEARTBEAT); Handled(f) && !IsMessage(f) && FrameIdOf(f) == []
  {
    EncodedResponse(HEARTBEAT);
  }

  lemma SendKeeps(cfg: Config, w: World, m: Message)
    requires Inv(cfg, w) && Enabled(w, Send(m))
    ensures Inv(cfg, Next(cfg, w, Send(m)))
  {
    hide Parse, WellFormed, Handled, Wire, FrameIdOf, IsMessage, DecodeMessage, EncodeMessage, ValidMessage;
    MessageSent(m);
    WireAppended(w, EncodeMessage(m));
  }

  lemma HeartbeatKeeps(cfg: Config, w: World)
    requires Inv(cfg, w)
    ensures Inv(cfg, Next(cfg, w, SendHeartbeat))
  {
    hide Parse, WellFormed, Handled, Wire, FrameIdOf, IsMessage, DecodeMessage, EncodeResponse, Undecoded;
    HeartbeatSent();
    WireAppended(w, EncodeResponse(HEARTBEAT));
  }

  /** Reading n bytes splits the undecoded frames into those completed and those still to come. */
  lemma DeliverSplits(cfg: Config, w: World, n: nat)
    requires WellFormed(Undecoded(w)) && Enabled(w, Deliver(n))
    ensures var v, fs := Next(cfg, w, Deliver(n)), Feed(w.client.saved, w.down[..n]).frames;
            && ValidSaved(v.client.saved) && WellFormed(Undecoded(v))
            && Parse(Undecoded(w)) == Parsed(fs + Parse(Undecoded(v)).frames, Parse(Undecoded(v)).rest)
  {
    hide Parse, WellFormed, Settle;
    var read := Held(w.client.saved) + w.down[..n];
    assert Undecoded(w) == read + w.down[n..];
    ParseAppend(read, w.down[n..]);
    WellFormedAppend(read, w.down[n..]);
    RestIsIncomplete(read);
    SettleHolds(Parse(read).rest);
  }

  /** What one readcb call does to the three places a message id can be. */
  lemma DeliverMoves(cfg: Config, w: World, n: nat)
    requires w.accepted <= |w.client.output| && WellFormed(Undecoded(w)) && Enabled(w, Deliver(n))
    ensures var v, fs := Next(cfg, w, Deliver(n)), Feed(w.client.saved, w.down[..n]).frames;
            && AckIds(InTransit(v)) == AckIds(InTransit(w))
            && QueueIds(v.client.queue) == QueueIds(w.client.queue) + FrameIds(fs)
            && FrameIds(Parse(Undecoded(w)).frames) == FrameIds(fs) + FrameIds(Parse(Undecoded(v)).frames)
  {
    hide Parse, WellFormed, Settle, Nops, Enqueued, FrameIdOf, AckIdOf;
    var v, fs := Next(cfg, w, Deliver(n)), Feed(w.client.saved, w.down[..n]).frames;
    DeliverSplits(cfg, w, n);
    EnqueuedIds(cfg, fs);
    NopsAckNothing(fs);
    CollectAppend(QueueIdOf, w.client.queue, Enqueued(cfg, fs));
    CollectAppend(FrameIdOf, fs, Parse(Undecoded(v)).frames);
    assert InTransit(v) == InTransit(w) + Nops(fs);
    CollectAppend(AckIdOf, InTransit(w), Nops(fs));
  }

  lemma DeliverConserves(cfg: Config, w: World, n: nat)
    requires Conserved(w) && w.accepted <= |w.client.output| && Enabled(w, Deliver(n))
    ensures Conserved(Next(cfg, w, Deliver(n)))
  {
    hide Parse, WellFormed, Settle, Step, FrameIdOf, Undecoded, InTransit, Enabled, Feed, AckIds, FrameIds, QueueIds;
    DeliverSplits(cfg, w, n);
    DeliverMoves(cfg, w, n);
    assert Next(cfg, w, Deliver(n)).unacked == w.unacked;
  }

  lemma DeliverAcknowledges(cfg: Config, w: World, n: nat)
    requires cfg.autoFinish && Inv(cfg, w) && Enabled(w, Deliver(n))
    ensures Acknowledging(Next(cfg, w, Deliver(n))) && Granted(cfg, Next(cfg, w, Deliver(n)))
  {
    hide Parse, WellFormed, Settle, Nops, Enqueued, FrameIdOf, IsMessage, DecodeMessage;
    DeliverSplits(cfg, w, n);
    var fs := Feed(w.client.saved, w.down[..n]).frames;
    EnqueuedIds(cfg, fs);
    NopsAreNops(fs);
  }

  lemma DeliverKeeps(cfg: Config, w: World, n: nat)
    requires cfg.autoFinish && Inv(cfg, w) && Enabled(w, Deliver(n))
    ensures Inv(cfg, Next(cfg, w, Deliver(n)))
  {
    DeliverConserves(cfg, w, n);
    DeliverAcknowledges(cfg, w, n);
  }

  /** The head of the queue becomes the last acknowledgement in transit. */
  lemma ProcessMoves(cfg: Config, w: World, success: bool)
    requires w.accepted <= |w.client.output| && w.client.queue != []
    requires w.client.queue[0].autoFinish && NUL !in w.client.queue[0].id
    ensures var v := Next(cfg, w, Process(success));
            && InTransit(w) <= InTransit(v)
            && AckIds(InTransit(v)) == AckIds(InTransit(w)) + [w.client.queue[0].id]
            && QueueIds(w.client.queue) == [w.client.queue[0].id] + QueueIds(v.client.queue)
  {
    var v := Next(cfg, w, Process(success));
    var h := Handed(w.client.queue[0], success);
    var ack := AckOf(h);
    CStringWhole(h.msg.id);
    assert InTransit(v) == InTransit(w) + ack + [Rdy(cfg.rdy)];
    CollectAppend(AckIdOf, InTransit(w) + ack, [Rdy(cfg.rdy)]);
    CollectAppend(AckIdOf, InTransit(w), ack);
    CollectOne(AckIdOf, Rdy(cfg.rdy));
    CollectOne(AckIdOf, ack[0]);
  }

  lemma ProcessKeeps(cfg: Config, w: World, success: bool)
    requires Inv(cfg, w)
    ensures Inv(cfg, Next(cfg, w, Process(success)))
  {
    hide Parse, WellFormed, AckOf, InTransit, AckIds, FrameIds, QueueIds, IsMessage, DecodeMessage, Distinct, Undecoded;
    if w.client.queue != [] {
      ProcessConserves(cfg, w, success);
      ProcessGrants(cfg, w, success);
    }
  }

  lemma ProcessConserves(cfg: Config, w: World, success: bool)
    requires Conserved(w) && w.accepted <= |w.client.output| && w.client.queue != []
    requires w.client.queue[0].autoFinish && NUL !in w.client.queue[0].id
    ensures Conserved(Next(cfg, w, Process(success)))
  {
    hide Parse, WellFormed, AckOf, InTransit, AckIds, FrameIds, QueueIds;
    ProcessMoves(cfg, w, success);
    assert Undecoded(Next(cfg, w, Process(success))) == Undecoded(w);
  }

  lemma ProcessGrants(cfg: Config, w: World, success: bool)
    requires Acknowledging(w) && Granted(cfg, w) && w.client.queue != []
    ensures Acknowledging(Next(cfg, w, Process(success))) && Granted(cfg, Next(cfg, w, Process(success)))
  {
    hide Parse, WellFormed, IsMessage, DecodeMessage;
    assert Undecoded(Next(cfg, w, Process(success))) == Undecoded(w);
  }

  /** The oldest acknowledgement in transit is for the oldest unacknowledged message. */
  lemma AcceptMoves(w: World)
    requires w.accepted < |w.client.output|
    ensures var c := w.client.output[w.accepted];
            AckIds(InTransit(w)) == AckIdOf(c) + AckIds(InTransit(Accepted(w, c)))
  {
    var c := w.client.output[w.accepted];
    var rest := InTransit(Accepted(w, c));
    assert InTransit(w) == [c] + rest;
    CollectAppend(AckIdOf, [c], rest);
    CollectOne(AckIdOf, c);
  }

  lemma AcceptConserves(w: World)
    requires Conserved(w) && w.accepted < |w.client.output|
    ensures Conserved(Accepted(w, w.client.output[w.accepted]))
    ensures |Accepted(w, w.client.output[w.accepted]).unacked| <= |w.unacked|
  {
    hide Parse, WellFormed, InTransit, AckIds, FrameIds, QueueIds;
    var c := w.client.output[w.accepted];
    AcceptMoves(w);
    assert Undecoded(Accepted(w, c)) == Undecoded(w);
    if c.Fin? || c.Req? {
      assert w.unacked[0] == c.id;
    }
  }

  lemma AcceptKeeps(cfg: Config, w: World)
    requires Inv(cfg, w) && Enabled(w, Accept)
    ensures Inv(cfg, Next(cfg, w, Accept))
  {
    hide Parse, WellFormed, IsMessage, DecodeMessage, Conserved, Remove;
    AcceptConserves(w);
    var c := w.client.output[w.accepted];
    assert c in w.client.output;
    assert Undecoded(Accepted(w, c)) == Undecoded(w);
  }

  lemma NextKeeps(cfg: Config, w: World, a: Act)
    requires cfg.autoFinish && Inv(cfg, w) && Enabled(w, a)
    ensures Inv(cfg, Next(cfg, w, a))
  {
    match a
    case Send(m) => SendKeeps(cfg, w, m);
    case SendHeartbeat => HeartbeatKeeps(cfg, w);
    case Deliver(n) => DeliverKeeps(cfg, w, n);
    case Process(success) => ProcessKeeps(cfg, w, success);
    case Accept => AcceptKeeps(cfg, w);
  }

  lemma {:induction false} LeadsKeeps(cfg: Config, v: World, acts: seq<Act>, w: World)
    requires cfg.autoFinish && Inv(cfg, v) && Leads(cfg, v, acts, w)
    ensures Inv(cfg, w)
    decreases |acts|
  {
    if acts == [] {
    } else {
      NextKeeps(cfg, v, acts[0]);
      LeadsKeeps(cfg, Next(cfg, v, acts[0]), acts[1..], w);
    }
  }

  lemma StartHolds(cfg: Config)
    requires cfg.rdy >= 0
    ensures Inv(cfg, Start(cfg))
  {
    CollectAppend(AckIdOf, [Sub(cfg.topic, cfg.channel)], [Rdy(cfg.rdy)]);
    CollectOne(AckIdOf, Sub(cfg.topic, cfg.channel));
    CollectOne(AckIdOf, Rdy(cfg.rdy));
    assert InTransit(Start(cfg)) == [Sub(cfg.topic, cfg.channel)] + [Rdy(cfg.rdy)];
    assert Undecoded(Start(cfg)) == [];
  }

  /**
   * In every reachable state nsqd's unacknowledged messages are, each exactly once and in order, the
   * acknowledgements in transit, the queued messages and the frames not yet decoded; so the queue
   * never holds more than RDY messages.
   */
  lemma FlowControlled(cfg: Config, acts: seq<Act>, w: World)
    requires cfg.autoFinish && cfg.rdy >= 0 && Leads(cfg, Start(cfg), acts, w)
    ensures w.unacked == AckIds(InTransit(w)) + QueueIds(w.client.queue) + FrameIds(Parse(Undecoded(w)).frames)
    ensures Distinct(w.unacked)
    ensures |w.client.queue| <= |w.unacked| <= cfg.rdy
  {
    StartHolds(cfg);
    LeadsKeeps(cfg, Start(cfg), acts, w);
    CollectLength(QueueIdOf, w.client.queue);
  }

  /** With nothing in transit, undecoded or queued, nsqd may send any message it is not already waiting for. */
  lemma QuiescentMaySend(cfg: Config, acts: seq<Act>, w: World, m: Message)
    requires cfg.autoFinish && cfg.rdy >= 1 && Leads(cfg, Start(cfg), acts, w)
    requires w.down == [] && w.client.saved.Idle? && w.client.queue == [] && w.accepted == |w.client.output|
    requires ValidMessage(m) && NUL !in m.id
    ensures w.unacked == [] && Enabled(w, Send(m))
  {
    StartHolds(cfg);
    LeadsKeeps(cfg, Start(cfg), acts, w);
    assert InTransit(w) == [] && Undecoded(w) == [];
  }

  // ----- progress -----

  /** A step that moves something already sent towards nsqd. */
  predicate Moves(w: World, a: Act) {
    && Enabled(w, a)
    && (a.Deliver? || a.Accept? || (a.Process? && w.client.queue != []))
  }

  function Work(w: World): nat {
    |w.down| + 4 * |Undecoded(w)| + 3 * |w.client.queue| + |InTransit(w)|
  }

  lemma {:induction false} StreamLength(fs: seq<bytes>)
    requires forall f :: f in fs ==> 4 <= |f|
    ensures |Stream(fs)| >= 8 * |fs|
  {
    if fs == [] {
    } else {
      assert fs[0] in fs;
      StreamLength(fs[1..]);
    }
  }

  lemma DeliverConsumes(cfg: Config, w: World, n: nat)
    requires WellFormed(Undecoded(w)) && Enabled(w, Deliver(n))
    ensures var v, fs := Next(cfg, w, Deliver(n)), Feed(w.client.saved, w.down[..n]).frames;
            |Undecoded(v)| + 8 * |fs| <= |Undecoded(w)| && |Enqueued(cfg, fs)| <= |fs| && |Nops(fs)| <= |fs|
  {
    hide Parse, WellFormed, Settle, IsMessage, IsHeartbeat, DecodeMessage;
    var read := Held(w.client.saved) + w.down[..n];
    var p := Parse(read);
    assert Undecoded(w) == read + w.down[n..];
    WellFormedAppend(read, w.down[n..]);
    StreamParse(read);
    WellFormedParts(read);
    RestIsIncomplete(read);
    SettleHolds(p.rest);
    StreamLength(p.frames);
    CollectLength(NopOf, p.frames);
    CollectLength(MessageOf, p.frames);
    CollectLength(Enqueuer(cfg), Messages(p.frames));
  }

  /** Every such step leaves less to do: nothing can keep a message from being acknowledged for ever. */
  lemma MovesDecrease(cfg: Config, w: World, a: Act)
    requires Inv(cfg, w) && Moves(w, a)
    ensures Work(Next(cfg, w, a)) < Work(w)
  {
    hide Work, Inv, Next;
    match a
    case Deliver(n) =>
      DeliverShrinks(cfg, w, n);
    case Process(success) =>
      ProcessShrinks(cfg, w, success);
    case Accept =>
      AcceptShrinks(cfg, w);
  }

  lemma AcceptShrinks(cfg: Config, w: World)
    requires Enabled(w, Accept)
    ensures Work(Next(cfg, w, Accept)) < Work(w)
  {
    assert Undecoded(Next(cfg, w, Accept)) == Undecoded(w);
  }

  lemma DeliverShrinks(cfg: Config, w: World, n: nat)
    requires Inv(cfg, w) && Enabled(w, Deliver(n))
    ensures Work(Next(cfg, w, Deliver(n))) < Work(w)
  {
    hide Parse, WellFormed, Settle, Undecoded, Enqueued, Nops, Acknowledging;
    DeliverConsumes(cfg, w, n);
    var v, fs := Next(cfg, w, Deliver(n)), Feed(w.client.saved, w.down[..n]).frames;
    assert |v.down| == |w.down| - n;
    assert InTransit(v) == InTransit(w) + Nops(fs);
  }

  lemma ProcessShrinks(cfg: Config, w: World, success: bool)
    requires Inv(cfg, w) && w.client.queue != []
    ensures Work(Next(cfg, w, Process(success))) < Work(w)
  {
    hide Parse, WellFormed;
    var v := Next(cfg, w, Process(success));
    assert Undecoded(v) == Undecoded(w);
    assert InTransit(v) == InTransit(w) + AckOf(Handed(w.client.queue[0], success)) + [Rdy(cfg.rdy)];
  }

  /** No deadlock: while nsqd may not send, something already sent can move. */
  lemma NoDeadlock(cfg: Config, w: World) returns (a: Act)
    requires cfg.rdy >= 1 && Inv(cfg, w) && !MaySend(w)
    ensures Moves(w, a)
  {
    if InTransit(w) != [] {
      a := Accept;
    } else if w.client.queue != [] {
      a := Process(true);
    } else {
      UndecodedNeedsBytes(w);
      a := Deliver(|w.down|);
      assert w.down[..|w.down|] == w.down;
    }
  }

  lemma HeldIsIncomplete(sv: Saved)
    requires ValidSaved(sv)
    ensures Parse(Held(sv)) == Parsed([], Held(sv))
  {
    if sv.Partial? {
      HeadOf(sv.size, sv.got);
    }
  }

  lemma UndecodedNeedsBytes(w: World)
    requires Conserved(w) && Parse(Undecoded(w)).frames != []
    ensures w.down != []
  {
    HeldIsIncomplete(w.client.saved);
    assert Held(w.client.saved) + [] == Held(w.client.saved);
  }

  /** acts are moves, one after the other. */
  predicate MovesOnly(cfg: Config, w: World, acts: seq<Act>)
    decreases |acts|
  {
    acts == [] || (Moves(w, acts[0]) && MovesOnly(cfg, Next(cfg, w, acts[0]), acts[1..]))
  }

  /** Whatever the schedule, moves alone come to an end: each one costs at least one unit of work. */
  lemma {:induction false} MovesBounded(cfg: Config, w: World, acts: seq<Act>, v: World)
    requires cfg.autoFinish && Inv(cfg, w) && MovesOnly(cfg, w, acts) && Leads(cfg, w, acts, v)
    ensures Inv(cfg, v) && |acts| + Work(v) <= Work(w)
    decreases |acts|
  {
    hide Inv, Moves, Work, Next;
    if acts != [] {
      NextKeeps(cfg, w, acts[0]);
      MovesDecrease(cfg, w, acts[0]);
      MovesBounded(cfg, Next(cfg, w, acts[0]), acts[1..], v);
    }
  }

  /** So every schedule of moves that cannot be continued has met a state where nsqd may send. */
  lemma StuckMaySend(cfg: Config, w: World, acts: seq<Act>, v: World)
    requires cfg.autoFinish && cfg.rdy >= 1 && Inv(cfg, w) && MovesOnly(cfg, w, acts) && Leads(cfg, w, acts, v)
    requires forall a :: !Moves(v, a)
    ensures MaySend(v) && |acts| <= Work(w)
  {
    hide Inv, Moves, Work, MaySend;
    MovesBounded(cfg, w, acts, v);
    if !MaySend(v) {
      var a := NoDeadlock(cfg, v);
    }
  }

  /** From every reachable state, the steps that need no new message lead to one where nsqd may send. */
  lemma {:induction false} EventuallyMaySend(cfg: Config, w: World) returns (acts: seq<Act>, v: World)
    requires cfg.autoFinish && cfg.rdy >= 1 && Inv(cfg, w)
    ensures Leads(cfg, w, acts, v) && MaySend(v)
    ensures forall a :: a in acts ==> a.Deliver? || a.Process? || a.Accept?
    decreases Work(w)
  {
    if MaySend(w) {
      acts, v := [], w;
    } else {
      var a := NoDeadlock(cfg, w);
      NextKeeps(cfg, w, a);
      MovesDecrease(cfg, w, a);
      var more;
      more, v := EventuallyMaySend(cfg, Next(cfg, w, a));
      acts := [a] + more;
    }
  }
}
