/**
 * What readcb's static variables stand for between calls, and when the way the stream
 * is cut into reads makes no difference.
 */
module Decoder {
  import opened Bytes
  import opened Frames

  /** `is_first` is set in Idle; otherwise `msg->size` is `size` and `message` holds `got` (of length `l`). */
  datatype Saved = Idle | Partial(size: nat, got: bytes)

  predicate ValidSaved(sv: Saved) {
    sv.Partial? ==> 4 <= sv.size < MAX_FRAME && |sv.got| < sv.size
  }

  /** The bytes of the unfinished frame. */
  function Held(sv: Saved): bytes {
    if sv.Idle? then [] else BigEndian(sv.size, 4) + sv.got
  }

  function Zeros(n: nat): (s: bytes)
    ensures |s| == n && forall i :: 0 <= i < n ==> s[i] == 0
  {
    if n == 0 then [] else [0] + Zeros(n - 1)
  }

  /** The zeroed size buffer after a read that returned only h. */
  function Pad(h: bytes): (s: bytes)
    requires |h| <= 4
    ensures |s| == 4
  {
    h + Zeros(4 - |h|)
  }

  /**
   * The state readcb leaves when its input ends in the incomplete frame `rest`. The number of
   * header bytes read is ignored, so a header cut short is padded with zeros and taken for a size.
   */
  function Settle(rest: bytes): Saved {
    if |rest| < 4 then
      var n := Head(Pad(rest));
      if n == 0 then Idle else Partial(n, [])
    else
      Partial(Head(rest), rest[4..])
  }

  datatype Fed = Fed(frames: seq<bytes>, saved: Saved)

  /** One readcb call: the frames it completes and the state it leaves. */
  function Feed(sv: Saved, chunk: bytes): Fed {
    var p := Parse(Held(sv) + chunk);
    Fed(p.frames, Settle(p.rest))
  }

  /** A run of readcb calls, from the first. */
  function FeedAll(chunks: seq<bytes>): Fed {
    if chunks == [] then Fed([], Idle)
    else
      var before := FeedAll(chunks[..|chunks| - 1]);
      var last := Feed(before.saved, chunks[|chunks| - 1]);
      Fed(before.frames + last.frames, last.saved)
  }

  function Received(chunks: seq<bytes>): bytes {
    if chunks == [] then [] else Received(chunks[..|chunks| - 1]) + chunks[|chunks| - 1]
  }

  /** The stream so far ends one to three bytes into a size header. */
  predicate CutsHeader(received: bytes) {
    0 < |Parse(received).rest| < 4
  }

  /** No read of the run ended inside a size header. */
  predicate NoHeaderCut(chunks: seq<bytes>) {
    chunks == [] || (NoHeaderCut(chunks[..|chunks| - 1]) && !CutsHeader(Received(chunks)))
  }

  /** Whatever arrives next is decoded as if the whole stream had been parsed at once. */
  ghost predicate OnTrack(chunks: seq<bytes>) {
    forall cont :: WellFormed(Received(chunks) + cont) ==>
      && WellFormed(Held(FeedAll(chunks).saved) + cont)
      && Messages(FeedAll(chunks + [cont]).frames) == Messages(Parse(Received(chunks) + cont).frames)
      && Heartbeats(FeedAll(chunks + [cont]).frames) == Heartbeats(Parse(Received(chunks) + cont).frames)
  }

  /** OnTrack held after every read of the run. */
  ghost predicate AlwaysOnTrack(chunks: seq<bytes>) {
    OnTrack(chunks) && (chunks == [] || AlwaysOnTrack(chunks[..|chunks| - 1]))
  }

  // ----- runs without header cuts -----

  lemma SettleHolds(rest: bytes)
    requires WellFormed(rest) && !HasFrame(rest) && !(0 < |rest| < 4)
    ensures ValidSaved(Settle(rest)) && Held(Settle(rest)) == rest
  {
    if rest == [] {
      assert Zeros(4) == [0, 0, 0, 0];
    } else {
      HeadDigits(rest);
      assert rest == rest[..4] + rest[4..];
    }
  }

  lemma RestIsIncomplete(s: bytes)
    ensures !HasFrame(Parse(s).rest)
    ensures WellFormed(s) ==> WellFormed(Parse(s).rest)
    ensures Parse(Parse(s).rest) == Parsed([], Parse(s).rest)
  {
    StreamParse(s);
    WellFormedParts(s);
  }

  /** A call whose predecessors all ended outside headers is decoded like the whole stream at once. */
  lemma {:induction false} FeedOne(chunks: seq<bytes>)
    requires chunks != [] && WellFormed(Received(chunks)) && NoHeaderCut(chunks[..|chunks| - 1])
    ensures FeedAll(chunks) == Fed(Parse(Received(chunks)).frames, Settle(Parse(Received(chunks)).rest))
    ensures WellFormed(Held(FeedAll(chunks[..|chunks| - 1]).saved) + chunks[|chunks| - 1])
    decreases |chunks|, 0
  {
    var init, c := chunks[..|chunks| - 1], chunks[|chunks| - 1];
    var before := Received(init);
    ParseAppend(before, c);
    WellFormedAppend(before, c);
    ChunkingIndependence(init);
  }

  /**
   * Reads that never end inside a size header: the frames completed are those of a one-shot parse
   * of everything received, and the saved state is exactly the unfinished rest.
   */
  lemma {:induction false} ChunkingIndependence(chunks: seq<bytes>)
    requires WellFormed(Received(chunks)) && NoHeaderCut(chunks)
    ensures FeedAll(chunks).frames == Parse(Received(chunks)).frames
    ensures Held(FeedAll(chunks).saved) == Parse(Received(chunks)).rest && ValidSaved(FeedAll(chunks).saved)
    decreases |chunks|, 1
  {
    if chunks != [] {
      FeedOne(chunks);
      RestIsIncomplete(Received(chunks));
      SettleHolds(Parse(Received(chunks)).rest);
    }
  }

  /** Delivering the encoding of a frame list, however it is cut outside headers, yields the list. */
  lemma DeliversStream(fs: seq<bytes>, chunks: seq<bytes>)
    requires forall f :: f in fs ==> Handled(f)
    requires Received(chunks) == Stream(fs) && NoHeaderCut(chunks)
    ensures FeedAll(chunks) == Fed(fs, Idle)
  {
    ParseStream(fs);
    ChunkingIndependence(chunks);
  }

  // ----- a header cut always loses something -----

  /** Byte by byte: what is there of the header counts as its most significant bytes. */
  lemma CutSize(r: bytes)
    requires 0 < |r| < 4
    ensures var n := 0x100_0000 * r[0] as nat + (if |r| > 1 then 0x1_0000 * r[1] as nat else 0)
                     + (if |r| > 2 then 0x100 * r[2] as nat else 0);
            Head(Pad(r)) == n && Settle(r) == if n == 0 then Idle else Partial(n, [])
  {
    var p := Pad(r);
    assert p[0] == r[0] && p[3] == 0;
    assert p[1] == if |r| > 1 then r[1] else 0;
    assert p[2] == if |r| > 2 then r[2] else 0;
  }

  /** The message that makes the padded size the true one, and what arrives of it after the cut. */
  function ShiftedMessage(n: nat): bytes
    requires n >= 4
  {
    [0, 0, 0, 2] + Zeros(n - 4)
  }

  function AfterCut(r: bytes): bytes
    requires |r| < 4 && Head(Pad(r)) >= 4
  {
    Zeros(4 - |r|) + ShiftedMessage(Head(Pad(r)))
  }

  lemma PaddedSize(r: bytes)
    requires 0 < |r| < 4 && r[0] < 128 && Head(Pad(r)) > 0
    ensures 256 <= Head(Pad(r)) < MAX_FRAME
    ensures BigEndian(Head(Pad(r)), 4) == Pad(r)
  {
    HeadDigits(Pad(r));
  }

  lemma ShiftedBytes(r: bytes)
    requires 0 < |r| < 4 && r[0] < 128 && Head(Pad(r)) > 0
    ensures Head(Pad(r)) >= 30 && IsMessage(ShiftedMessage(Head(Pad(r))))
    ensures r + AfterCut(r) == Wire(ShiftedMessage(Head(Pad(r))))
  {
    PaddedSize(r);
  }

  lemma ShiftedTruth(r: bytes)
    requires 0 < |r| < 4 && r[0] < 128 && Head(Pad(r)) > 0
    ensures Head(Pad(r)) >= 30 && IsMessage(ShiftedMessage(Head(Pad(r))))
    ensures Parse(r + AfterCut(r)) == Parsed([ShiftedMessage(Head(Pad(r)))], []) && WellFormed(r + AfterCut(r))
  {
    ShiftedBytes(r);
    ParseOne(ShiftedMessage(Head(Pad(r))));
  }

  /** readcb sees the frame one to three bytes early, and reads its type as 0. */
  lemma ShiftedReading(r: bytes)
    requires 0 < |r| < 4 && r[0] < 128 && Head(Pad(r)) > 0
    ensures Head(Pad(r)) >= 4 && Messages(Feed(Settle(r), AfterCut(r)).frames) == []
  {
    PaddedSize(r);
    var n, cont := Head(Pad(r)), AfterCut(r);
    var taken, over := cont[..n], cont[n..];
    assert Held(Settle(r)) + cont == Wire(taken) + over;
    ParseWire(taken, over);
    assert Parse(over) == Parsed([], over);
    assert Head(taken) == RESPONSE;
    assert Feed(Settle(r), cont).frames == [taken];
    NoMessage(taken);
  }

  /** After a cut that leaves a non-zero padded size, a message can be lost. */
  lemma CutShiftsType(received: bytes) returns (cont: bytes)
    requires WellFormed(received) && CutsHeader(received) && Head(Pad(Parse(received).rest)) > 0
    ensures WellFormed(received + cont)
    ensures Messages(Parse(received + cont).frames) != Messages(Parse(received).frames)
    ensures Messages(Feed(Settle(Parse(received).rest), cont).frames) == []
  {
    var r := Parse(received).rest;
    RestIsIncomplete(received);
    ShiftedTruth(r);
    cont := AfterCut(r);
    ParseAppend(received, cont);
    WellFormedAppend(received, cont);
    OneMessage(Parse(received).frames, ShiftedMessage(Head(Pad(r))));
    ShiftedReading(r);
  }

  lemma OneMessage(fs: seq<bytes>, f: bytes)
    requires IsMessage(f)
    ensures Messages(fs + [f]) == Messages(fs) + [DecodeMessage(f)] != Messages(fs)
  {
    MessagesAppend(fs, [f]);
    Lists.CollectOne(MessageOf, f);
  }

  lemma NoMessage(f: bytes)
    requires !IsMessage(f)
    ensures Messages([f]) == []
  {
    Lists.CollectOne(MessageOf, f);
  }

  /** What arrives of a heartbeat frame after h bytes of its header, all zeros. */
  function RestOfHeartbeat(h: nat): bytes
    requires h < 4
  {
    [0, 0, 0, 15][h..] + EncodeResponse(HEARTBEAT)
  }

  lemma HeartbeatBytes(r: bytes)
    requires 0 < |r| < 4 && Head(Pad(r)) == 0
    ensures r + RestOfHeartbeat(|r|) == Wire(EncodeResponse(HEARTBEAT))
  {
    assert BigEndian(15, 4) == [0, 0, 0, 15];
    assert r == [0, 0, 0, 15][..|r|];
  }

  lemma HeartbeatTruth(r: bytes)
    requires 0 < |r| < 4 && Head(Pad(r)) == 0
    ensures Parse(r + RestOfHeartbeat(|r|)) == Parsed([EncodeResponse(HEARTBEAT)], [])
    ensures WellFormed(r + RestOfHeartbeat(|r|))
  {
    var lost := EncodeResponse(HEARTBEAT);
    EncodedResponse(HEARTBEAT);
    HeartbeatBytes(r);
    ParseOne(lost);
  }

  lemma HeartbeatReading(h: nat)
    requires 0 < h < 4
    ensures !HasFrame(RestOfHeartbeat(h))
  {
    assert BigEndian(RESPONSE, 4) == [0, 0, 0, 0];
  }

  /** A cut header of zeros is forgotten; the next read takes the rest of it for a huge size. */
  lemma CutForgetsZeros(received: bytes) returns (cont: bytes)
    requires WellFormed(received) && CutsHeader(received) && Head(Pad(Parse(received).rest)) == 0
    ensures WellFormed(received + cont)
    ensures Heartbeats(Parse(received + cont).frames) == Heartbeats(Parse(received).frames) + 1
    ensures Feed(Settle(Parse(received).rest), cont).frames == []
  {
    var r := Parse(received).rest;
    cont := RestOfHeartbeat(|r|);
    EncodedResponse(HEARTBEAT);
    HeartbeatTruth(r);
    HeartbeatReading(|r|);
    ParseAppend(received, cont);
    WellFormedAppend(received, cont);
    OneHeartbeat(Parse(received).frames, EncodeResponse(HEARTBEAT));
    assert Held(Settle(r)) + cont == cont;
  }

  lemma OneHeartbeat(fs: seq<bytes>, f: bytes)
    requires IsHeartbeat(f)
    ensures Heartbeats(fs + [f]) == Heartbeats(fs) + 1
  {
    MessagesAppend(fs, [f]);
    Lists.CollectOne(HeartbeatOf, f);
  }

  lemma CutDerails(chunks: seq<bytes>)
    requires chunks != [] && WellFormed(Received(chunks)) && NoHeaderCut(chunks[..|chunks| - 1])
    requires CutsHeader(Received(chunks))
    ensures !OnTrack(chunks)
  {
    var received := Received(chunks);
    FeedOne(chunks);
    var cont: bytes;
    if Head(Pad(Parse(received).rest)) > 0 {
      cont := CutShiftsType(received);
    } else {
      cont := CutForgetsZeros(received);
    }
    FeedAfter(chunks, cont);
    MessagesAppend(Parse(received).frames, Feed(FeedAll(chunks).saved, cont).frames);
  }

  lemma FeedAfter(chunks: seq<bytes>, c: bytes)
    ensures Received(chunks + [c]) == Received(chunks) + c
    ensures FeedAll(chunks + [c]) == Fed(FeedAll(chunks).frames + Feed(FeedAll(chunks).saved, c).frames,
                                         Feed(FeedAll(chunks).saved, c).saved)
  {
    assert (chunks + [c])[..|chunks|] == chunks;
  }

  lemma UncutIsOnTrack(chunks: seq<bytes>)
    requires WellFormed(Received(chunks)) && NoHeaderCut(chunks)
    ensures OnTrack(chunks)
  {
    forall cont | WellFormed(Received(chunks) + cont)
      ensures WellFormed(Held(FeedAll(chunks).saved) + cont)
      ensures FeedAll(chunks + [cont]).frames == Parse(Received(chunks) + cont).frames
    {
      assert (chunks + [cont])[..|chunks|] == chunks;
      FeedOne(chunks + [cont]);
    }
  }

  /**
   * The exact condition: every state of a run decodes whatever may follow like a one-shot parse
   * if and only if no read ended strictly inside a size header.
   */
  lemma {:induction false} OnTrackIffNoHeaderCut(chunks: seq<bytes>)
    requires WellFormed(Received(chunks))
    ensures AlwaysOnTrack(chunks) <==> NoHeaderCut(chunks)
  {
    if chunks == [] {
      UncutIsOnTrack(chunks);
    } else {
      var init := chunks[..|chunks| - 1];
      WellFormedAppend(Received(init), chunks[|chunks| - 1]);
      OnTrackIffNoHeaderCut(init);
      if NoHeaderCut(chunks) {
        UncutIsOnTrack(chunks);
      } else if NoHeaderCut(init) {
        CutDerails(chunks);
      }
    }
  }
}
