/**
 * One readcb call over values: what it does with any saved state and any bytes, frames of every type included,
 * and exactly when that is what a one-shot parse says.
 */
module Calls {
  import opened Bytes
  import opened Frames
  import opened Decoder

  /** The number read from four bytes of which only s are there, or from the first four of s. */
  function PaddedHead(s: bytes): nat {
    if |s| < 4 then Head(Pad(s)) else Head(s)
  }

  /** A frame readcb has no branch for, such as an error of nsqd. */
  predicate Unhandled(f: bytes) {
    |f| < MAX_FRAME && PaddedHead(f) != RESPONSE && PaddedHead(f) != MESSAGE
  }

  /**
   * The static variables between two turns of readcb's loop: `is_first` is set, with the l that the frame
   * before left behind, or the buffer of `size` bytes begins with `got`.
   */
  datatype Vars = First(l: nat) | Within(size: nat, got: bytes)

  predicate ValidVars(v: Vars) {
    v.Within? ==> |v.got| <= v.size < MAX_FRAME
  }

  /** A turn completes a frame and goes on, breaks with its variables saved, leaves its block, or gets none. */
  datatype Turn =
    | Goes(frame: bytes, vars: Vars, rest: bytes)
    | Breaks(saved: Saved, rest: bytes)
    | Overruns
    | NoMemory

  /** After the read of the body, with f of the frame there. */
  function BodyEnd(size: nat, f: bytes, rest: bytes, first: bool): (t: Turn)
    requires |f| <= size < MAX_FRAME
    ensures t.Goes? ==> size > 0 && t.frame == f && |f| == size && t.rest == rest && ValidVars(t.vars)
    ensures t.Goes? ==> t.vars.First? || (!first && t.vars == Within(size, f))
  {
    EmptyHeader();
    if |f| < size then Breaks(Partial(size, f), rest)
    else if PaddedHead(f) == RESPONSE then if size == 0 then Breaks(Idle, rest) else Goes(f, First(0), rest)
    else if PaddedHead(f) == MESSAGE then if size < MESSAGE_PREFIX then Overruns else Goes(f, First(0), rest)
    else Goes(f, if first then First(size) else Within(size, f), rest)
  }

  /** From the read of the body on. */
  function BodyTurn(size: nat, got: bytes, input: bytes, first: bool): Turn
    requires |got| <= size < MAX_FRAME
  {
    var k := Min(size - |got|, |input|);
    BodyEnd(size, got + input[..k], input[k..], first)
  }

  /** With an l above the size the read asks for a negative number of bytes, as a size_t: for all there are. */
  function TurnOf(v: Vars, input: bytes): (t: Turn)
    requires ValidVars(v)
    ensures t.Goes? ==> ValidVars(t.vars) && (v.First? ==> t.vars.First?)
    ensures t.Goes? && |t.rest| >= |input| ==>
              v.Within? && |v.got| == v.size && t.rest == input && (t.vars.First? || t.vars == v)
  {
    match v
    case Within(size, got) => BodyTurn(size, got, input, false)
    case First(l) =>
      EmptyHeader();
      var size, rest := PaddedHead(input), input[Min(4, |input|)..];
      if size >= MAX_FRAME then NoMemory
      else if l <= size then BodyTurn(size, Zeros(l), rest, true)
      else if rest != [] && l + |rest| > Block(size) then Overruns
      else Breaks(Idle, [])
  }

  lemma EmptyHeader()
    ensures PaddedHead([]) == 0
  {
    assert Zeros(4) == [0, 0, 0, 0];
  }

  datatype End = Returns(saved: Saved, rest: bytes) | NeverReturns | OutOfBounds | OutOfMemory

  /** The frames completed, in order, and how the call ends. */
  datatype Call = Call(frames: seq<bytes>, end: End)

  /** A turn that goes on with the variables and the input as they were is repeated for ever. */
  function Turns(v: Vars, input: bytes): Call
    requires ValidVars(v)
    decreases |input|, if v.First? then 0 else 1
  {
    match TurnOf(v, input)
    case Breaks(saved, rest) => Call([], Returns(saved, rest))
    case Overruns => Call([], OutOfBounds)
    case NoMemory => Call([], OutOfMemory)
    case Goes(f, next, rest) =>
      if next == v && rest == input then Call([], NeverReturns)
      else
        var c := Turns(next, rest);
        Call([f] + c.frames, c.end)
  }

  function VarsOf(sv: Saved): Vars {
    if sv.Idle? then First(0) else Within(sv.size, sv.got)
  }

  predicate Resumable(sv: Saved) {
    sv.Partial? ==> |sv.got| < sv.size < MAX_FRAME
  }

  function CallOf(sv: Saved, input: bytes): Call
    requires Resumable(sv)
  {
    Turns(VarsOf(sv), input)
  }

  // ----- which calls never return -----

  lemma {:induction false} FirstReturns(l: nat, input: bytes)
    ensures !Turns(First(l), input).end.NeverReturns?
    decreases |input|
  {
    var t := TurnOf(First(l), input);
    if t.Goes? {
      FirstReturns(t.vars.l, t.rest);
    }
  }

  lemma StuckTurns(f: bytes, rest: bytes)
    requires Unhandled(f)
    ensures Turns(Within(|f|, f), rest) == Call([], NeverReturns)
  {
    assert f + rest[..0] == f && rest[0..] == rest;
    assert TurnOf(Within(|f|, f), rest) == Goes(f, Within(|f|, f), rest);
  }

  /** Exactly those that complete a frame without a branch which an earlier call began. */
  lemma NeverReturnsIff(sv: Saved, input: bytes)
    requires Resumable(sv)
    ensures CallOf(sv, input).end.NeverReturns? <==>
              sv.Partial? && |sv.got| + |input| >= sv.size && Unhandled(sv.got + input[..sv.size - |sv.got|])
  {
    hide Turns, TurnOf, Unhandled;
    if sv.Idle? {
      FirstReturns(0, input);
    } else {
      WithinTurn(sv.size, sv.got, input);
      TurnsEnd(VarsOf(sv), input);
      if |sv.got| + |input| >= sv.size {
        var k := sv.size - |sv.got|;
        TurnsGo(VarsOf(sv), input);
        FirstReturns(0, input[k..]);
        if Unhandled(sv.got + input[..k]) {
          StuckTurns(sv.got + input[..k], input[k..]);
        }
      }
    }
  }

  lemma WithinTurn(size: nat, got: bytes, input: bytes)
    requires |got| < size < MAX_FRAME
    ensures var t := TurnOf(Within(size, got), input);
            if |got| + |input| < size then t.Breaks?
            else
              var f, rest := got + input[..size - |got|], input[size - |got|..];
              if Unhandled(f) then t == Goes(f, Within(size, f), rest)
              else t == Goes(f, First(0), rest) || t.Overruns?
  {
  }

  lemma TurnsEnd(v: Vars, input: bytes)
    requires ValidVars(v)
    ensures !TurnOf(v, input).Goes? ==> Turns(v, input).frames == [] && !Turns(v, input).end.NeverReturns?
  {
  }

  lemma TurnsGo(v: Vars, input: bytes)
    requires ValidVars(v)
    ensures var t := TurnOf(v, input);
            t.Goes? && |t.rest| < |input| ==>
              Turns(v, input) == Call([t.frame] + Turns(t.vars, t.rest).frames, Turns(t.vars, t.rest).end)
  {
  }

  // ----- one turn on the frames of a stream -----

  /** A frame nsqd may send. */
  predicate Typed(f: bytes) {
    4 <= |f| < MAX_FRAME && (Handled(f) || Unhandled(f))
  }

  /** s can be the beginning of a stream of such frames. */
  predicate TypedStream(s: bytes)
    decreases |s|
  {
    if HasFrame(s) then
      var n := 4 + Head(s);
      Typed(s[4..n]) && TypedStream(s[n..])
    else WellFormed(s)
  }

  /** Byte by byte: the frames without a branch are those of any other type. */
  lemma UnhandledBytes(f: bytes)
    requires 4 <= |f| < MAX_FRAME
    ensures Unhandled(f) <==> f[..4] != [0, 0, 0, 0] && f[..4] != [0, 0, 0, 2]
  {
  }

  lemma WireParts(f: bytes, tail: bytes)
    requires 4 <= |f| < MAX_FRAME
    ensures var s := Wire(f) + tail;
            && HasFrame(s) && Head(s) == PaddedHead(s) == |f|
            && s[4..4 + |f|] == f && s[4 + |f|..] == tail && s[4..] == f + tail
  {
    var s := Wire(f) + tail;
    assert s == BigEndian(|f|, 4) + (f + tail);
    HeadOf(|f|, f + tail);
  }

  lemma FirstWire(f: bytes, tail: bytes)
    requires Typed(f)
    ensures TurnOf(First(0), Wire(f) + tail) == Goes(f, if Unhandled(f) then First(|f|) else First(0), tail)
  {
    hide Wire, Head;
    WireParts(f, tail);
    var rest := (Wire(f) + tail)[4..];
    assert Zeros(0) + rest[..|f|] == f && rest[|f|..] == tail;
    assert Handled(f) ==> PaddedHead(f) == Head(f);
  }

  /** What is left of a stream without a whole frame is saved, a header cut short as the size it is taken for. */
  lemma FirstRest(s: bytes)
    requires !HasFrame(s) && WellFormed(s)
    ensures TurnOf(First(0), s) == Breaks(Settle(s), []) && Resumable(Settle(s))
  {
    if |s| < 4 {
      if s != [] {
        HeadDigits(Pad(s));
      } else {
        EmptyHeader();
      }
      assert Zeros(0) + [] == [];
    } else {
      assert s[4..][..|s| - 4] == s[4..] && Zeros(0) + s[4..] == s[4..];
    }
  }

  /** What a saved frame and its next bytes are, written as a stream. */
  lemma HeldParts(size: nat, got: bytes, input: bytes)
    requires |got| <= size && 4 <= size < MAX_FRAME
    ensures var s := Held(Partial(size, got)) + input;
            if |got| + |input| < size then
              !HasFrame(s) && Settle(s) == Partial(size, got + input)
            else
              var k := size - |got|;
              s == Wire(got + input[..k]) + input[k..]
  {
    var s := Held(Partial(size, got)) + input;
    assert s == BigEndian(size, 4) + (got + input);
    HeadOf(size, got + input);
    if |got| + |input| >= size {
      var k := size - |got|;
      assert s == BigEndian(size, 4) + (got + input[..k]) + input[k..];
    }
  }

  // ----- when a call is a one-shot parse -----

  /** What a one-shot parse makes of s, with the rest saved as readcb saves it. */
  function OneShot(s: bytes): Call {
    Call(Parse(s).frames, Returns(Settle(Parse(s).rest), []))
  }

  /** Behind a frame of l bytes without a branch: nothing that the stale l could damage. */
  predicate Harmless(l: nat, tail: bytes) {
    || (|tail| < 4 && tail == Zeros(|tail|))
    || (l == 4 && HasFrame(tail) && tail[4..] == Zeros(Head(tail)))
  }

  /** Frames with a branch; one without may begin in the call if what is behind it is harmless. */
  predicate Tolerated(s: bytes, begun: bool)
    decreases |s|
  {
    HasFrame(s) ==>
      var n := 4 + Head(s);
      if Handled(s[4..n]) then Tolerated(s[n..], true) else begun && Harmless(Head(s), s[n..])
  }

  lemma TypedWire(f: bytes, tail: bytes)
    requires 4 <= |f| < MAX_FRAME
    ensures TypedStream(Wire(f) + tail) <==> Typed(f) && TypedStream(tail)
  {
    WireParts(f, tail);
  }

  lemma OneShotWire(f: bytes, tail: bytes)
    requires Typed(f)
    ensures OneShot(Wire(f) + tail) == Call([f] + OneShot(tail).frames, OneShot(tail).end)
    ensures Tolerated(Wire(f) + tail, true) <==> if Handled(f) then Tolerated(tail, true) else Harmless(|f|, tail)
    ensures Tolerated(Wire(f) + tail, false) <==> Handled(f) && Tolerated(tail, true)
  {
    ParseWire(f, tail);
    WireParts(f, tail);
  }

  lemma SameAfter(f: bytes, a: Call, b: Call)
    ensures Call([f] + a.frames, a.end) == Call([f] + b.frames, b.end) <==> a == b
  {
    assert ([f] + a.frames)[1..] == a.frames && ([f] + b.frames)[1..] == b.frames;
  }

  lemma ZeroDigits(p: bytes)
    requires |p| == 4
    ensures Head(p) == 0 <==> p == [0, 0, 0, 0]
  {
  }

  lemma ZeroHead(s: bytes)
    requires |s| <= 4
    ensures Head(Pad(s)) == 0 <==> s == Zeros(|s|)
  {
    hide Head, Zeros;
    ZeroDigits(Pad(s));
    var p, z := Pad(s), Zeros(4);
    assert p == z ==> s == p[..|s|] == z[..|s|] == Zeros(|s|);
    assert s == Zeros(|s|) ==> p == z;
    assert z == [0, 0, 0, 0];
  }

  /** The turn after a frame of l bytes without a branch takes the next frame for one that begins with l zeros. */
  lemma StaleTurn(l: nat, g: bytes, tail: bytes)
    requires l >= 4 && 4 <= |g| < MAX_FRAME
    ensures var t := TurnOf(First(l), Wire(g) + tail);
            if l > |g| then t.Overruns? || t == Breaks(Idle, [])
            else t == Goes(Zeros(l) + g[..|g| - l], First(0), g[|g| - l..] + tail)
    ensures l > |g| >= 7 ==> TurnOf(First(l), Wire(g) + tail).Overruns?
  {
    hide Wire, Head;
    WireParts(g, tail);
    var rest := (Wire(g) + tail)[4..];
    if l <= |g| {
      var f := Zeros(l) + rest[..|g| - l];
      assert rest[..|g| - l] == g[..|g| - l] && rest[|g| - l..] == g[|g| - l..] + tail;
      StartsWithZeros(f);
    }
  }

  lemma StartsWithZeros(f: bytes)
    requires |f| >= 4 && f[..4] == [0, 0, 0, 0]
    ensures PaddedHead(f) == Head(f) == 0
  {
  }

  lemma {:induction false} ShiftedByItself(g: bytes, l: nat, n: nat)
    requires 0 < l <= |g| && g == Zeros(l) + g[..|g| - l] && n <= |g|
    ensures g[..n] == Zeros(n)
  {
    if n > 0 {
      ShiftedByItself(g, l, n - 1);
      assert g[n - 1] == (Zeros(l) + g[..|g| - l])[n - 1];
      assert n - 1 >= l ==> g[n - 1] == g[..n - 1][n - 1 - l];
    }
  }

  lemma StaleRest(l: nat, tail: bytes)
    requires 4 <= l < MAX_FRAME && !HasFrame(tail) && WellFormed(tail)
    ensures Turns(First(l), tail) == OneShot(tail) <==> Harmless(l, tail)
  {
    if |tail| < 4 {
      ZeroHead(tail);
      if tail != [] {
        HeadDigits(Pad(tail));
      }
    }
  }

  /** The rest of the call: only an all-zero frame is seen as it is, and then what is behind it is not read. */
  lemma StaleCall(l: nat, g: bytes, tail: bytes)
    requires 4 <= l < MAX_FRAME && 4 <= |g| < MAX_FRAME
    ensures var c := Turns(First(l), Wire(g) + tail);
            && (l > |g| ==> c.frames == [])
            && (l <= |g| ==> c.frames != [] && c.frames[0] == Zeros(l) + g[..|g| - l])
            && (l <= |g| && c.frames[0] == g ==> g == Zeros(|g|))
            && (l <= |g| && g == Zeros(|g|) ==> c == Call([g], Returns(Idle, Zeros(l - 4) + tail)))
  {
    hide Wire, Turns, TurnOf, Head;
    var s := Wire(g) + tail;
    StaleTurn(l, g, tail);
    TurnsEnd(First(l), s);
    if l <= |g| {
      WireParts(g, tail);
      TurnsGo(First(l), s);
      if Zeros(l) + g[..|g| - l] == g {
        ShiftedByItself(g, l, |g|);
        assert g[..|g|] == g;
      }
      if g == Zeros(|g|) {
        ZerosSplit(|g|, l);
        ZeroHeader(l, tail);
      }
    }
  }

  lemma StaleFrame(l: nat, g: bytes, tail: bytes)
    requires 4 <= l < MAX_FRAME && Typed(g)
    ensures Turns(First(l), Wire(g) + tail) == OneShot(Wire(g) + tail) <==> Harmless(l, Wire(g) + tail)
  {
    hide Wire, OneShot, Turns, TypedStream, Tolerated, Harmless;
    StaleCall(l, g, tail);
    OneShotWire(g, tail);
    HarmlessWire(l, g, tail);
    NothingShot();
    OneShotDrains(tail);
    assert |Zeros(l - 4) + tail| == l - 4 + |tail|;
  }

  lemma NothingShot()
    ensures OneShot([]) == Call([], Returns(Idle, []))
  {
    EmptyHeader();
  }

  lemma OneShotDrains(s: bytes)
    ensures OneShot(s).end.Returns? && OneShot(s).end.rest == []
  {
  }

  lemma ZerosSplit(n: nat, l: nat)
    requires l <= n
    ensures Zeros(n)[n - l..] == Zeros(l) && Zeros(l) + Zeros(n)[..n - l] == Zeros(n)
  {
  }

  /** A size of zero ends the call, with everything behind it unread. */
  lemma ZeroHeader(l: nat, tail: bytes)
    requires l >= 4
    ensures Turns(First(0), Zeros(l) + tail) == Call([], Returns(Idle, Zeros(l - 4) + tail))
  {
    var s := Zeros(l) + tail;
    assert s[..4] == [0, 0, 0, 0] && s[4..] == Zeros(l - 4) + tail;
    StartsWithZeros(s);
    EmptyHeader();
    assert Zeros(0) + s[4..][..0] == [];
  }

  lemma HarmlessWire(l: nat, g: bytes, tail: bytes)
    requires 4 <= |g| < MAX_FRAME
    ensures Harmless(l, Wire(g) + tail) <==> l == 4 && g == Zeros(|g|) && tail == []
  {
    hide Wire, Head;
    WireParts(g, tail);
    assert g + tail == Zeros(|g|) ==> |tail| == 0 && tail == [] && g + tail == g;
  }

  lemma {:induction false} FirstExact(s: bytes)
    requires TypedStream(s)
    ensures Turns(First(0), s) == OneShot(s) <==> Tolerated(s, true)
    decreases |s|
  {
    hide Turns, OneShot, Harmless, Settle;
    if HasFrame(s) {
      var f, tail := s[4..4 + Head(s)], s[4 + Head(s)..];
      WireHead(s);
      FirstGoes(f, tail);
      OneShotWire(f, tail);
      if Handled(f) {
        FirstExact(tail);
        SameAfter(f, Turns(First(0), tail), OneShot(tail));
      } else {
        SameAfter(f, Turns(First(|f|), tail), OneShot(tail));
        StaleExact(|f|, tail);
      }
    } else {
      RestExact(s);
    }
  }

  lemma FirstGoes(f: bytes, tail: bytes)
    requires Typed(f)
    ensures var c := Turns(if Unhandled(f) then First(|f|) else First(0), tail);
            Turns(First(0), Wire(f) + tail) == Call([f] + c.frames, c.end)
    ensures Unhandled(f) <==> !Handled(f)
  {
    hide Wire;
    FirstWire(f, tail);
    WireParts(f, tail);
    TurnsGo(First(0), Wire(f) + tail);
  }

  lemma RestExact(s: bytes)
    requires !HasFrame(s) && WellFormed(s)
    ensures Turns(First(0), s) == OneShot(s) && Tolerated(s, true)
  {
    FirstRest(s);
  }

  lemma StaleExact(l: nat, s: bytes)
    requires 4 <= l < MAX_FRAME && TypedStream(s)
    ensures Turns(First(l), s) == OneShot(s) <==> Harmless(l, s)
  {
    if HasFrame(s) {
      WireHead(s);
      StaleFrame(l, s[4..4 + Head(s)], s[4 + Head(s)..]);
    } else {
      StaleRest(l, s);
    }
  }

  /**
   * The exact condition: on frames of any type, a call is a one-shot parse of what was saved and what arrived
   * if and only if the first frame without a branch, should there be one, began in this call and nothing
   * behind it can be damaged.
   */
  lemma CallIffTolerated(sv: Saved, input: bytes)
    requires ValidSaved(sv) && TypedStream(Held(sv) + input)
    ensures CallOf(sv, input) == OneShot(Held(sv) + input) <==> Tolerated(Held(sv) + input, sv.Idle?)
  {
    hide Turns, OneShot, Tolerated, TypedStream;
    if sv.Idle? {
      assert Held(sv) + input == input;
      FirstExact(input);
    } else {
      ResumedExact(sv.size, sv.got, input);
    }
  }

  lemma UnfinishedCall(size: nat, got: bytes, input: bytes)
    requires 4 <= size < MAX_FRAME && |got| + |input| < size
    ensures var s, c := Held(Partial(size, got)) + input, Call([], Returns(Partial(size, got + input), []));
            Turns(Within(size, got), input) == c && OneShot(s) == c && Tolerated(s, false)
  {
    hide Held, Settle;
    HeldParts(size, got, input);
    assert input[..|input|] == input && input[|input|..] == [];
    assert TurnOf(Within(size, got), input) == Breaks(Partial(size, got + input), []);
  }

  lemma WithinGoes(size: nat, got: bytes, input: bytes)
    requires |got| < size < MAX_FRAME && |got| + |input| >= size
    requires Handled(got + input[..size - |got|])
    ensures var c := Turns(First(0), input[size - |got|..]);
            Turns(Within(size, got), input) == Call([got + input[..size - |got|]] + c.frames, c.end)
  {
    assert PaddedHead(got + input[..size - |got|]) == Head(got + input[..size - |got|]);
    TurnsGo(Within(size, got), input);
  }

  lemma ResumedExact(size: nat, got: bytes, input: bytes)
    requires |got| < size && 4 <= size < MAX_FRAME && TypedStream(Held(Partial(size, got)) + input)
    ensures var s := Held(Partial(size, got)) + input;
            Turns(Within(size, got), input) == OneShot(s) <==> Tolerated(s, false)
  {
    hide Harmless, Settle, Held, Turns;
    var s := Held(Partial(size, got)) + input;
    HeldParts(size, got, input);
    if |got| + |input| < size {
      UnfinishedCall(size, got, input);
    } else {
      var f, rest := got + input[..size - |got|], input[size - |got|..];
      TypedWire(f, rest);
      OneShotWire(f, rest);
      if Handled(f) {
        WithinGoes(size, got, input);
        FirstExact(rest);
        SameAfter(f, Turns(First(0), rest), OneShot(rest));
      } else {
        NeverReturnsIff(Partial(size, got), input);
      }
    }
  }

  lemma {:induction false} WellFormedTolerated(s: bytes, begun: bool)
    requires WellFormed(s)
    ensures TypedStream(s) && Tolerated(s, begun)
    decreases |s|
  {
    if HasFrame(s) {
      WellFormedTolerated(s[4 + Head(s)..], true);
    }
  }

  lemma {:induction false} SettledIsValid(s: bytes)
    requires TypedStream(s)
    ensures ValidSaved(Settle(Parse(s).rest))
    decreases |s|
  {
    if HasFrame(s) {
      SettledIsValid(s[4 + Head(s)..]);
    } else if 0 < |s| < 4 && Head(Pad(s)) > 0 {
      PaddedSize(s);
    } else if s == [] {
      EmptyHeader();
    }
  }

  // ----- frames nsqd does not send -----

  lemma FirstSized(size: bytes, f: bytes, tail: bytes)
    requires |size| == 4 && Head(size) == |f| < MAX_FRAME
    ensures TurnOf(First(0), size + (f + tail)) == BodyEnd(|f|, f, tail, true)
  {
    hide BodyEnd, Head;
    var s := size + (f + tail);
    SizeAhead(size, f + tail);
    assert s[4..] == f + tail && Zeros(0) + (f + tail)[..|f|] == f && (f + tail)[|f|..] == tail;
  }

  lemma SizeAhead(size: bytes, more: bytes)
    requires |size| == 4
    ensures PaddedHead(size + more) == Head(size)
  {
  }

  /** A message too short for its fields is read past its end. */
  lemma ShortMessage(f: bytes, tail: bytes)
    requires 4 <= |f| < 30 && f[..4] == [0, 0, 0, 2]
    ensures Turns(First(0), Wire(f) + tail) == Call([], OutOfBounds)
  {
    hide Head, TurnOf, BigEndian;
    HeadOf(|f|, []);
    assert BigEndian(|f|, 4) + [] == BigEndian(|f|, 4);
    assert Wire(f) + tail == BigEndian(|f|, 4) + (f + tail);
    FirstSized(BigEndian(|f|, 4), f, tail);
    TypeOfMessage(f);
  }

  lemma TypeOfMessage(f: bytes)
    requires |f| >= 4 && f[..4] == [0, 0, 0, 2]
    ensures PaddedHead(f) == Head(f) == MESSAGE
  {
  }

  /** A size below zero cannot be allocated. */
  lemma NegativeSize(s: bytes)
    requires s != [] && s[0] >= 128
    ensures Turns(First(0), s) == Call([], OutOfMemory)
  {
    if |s| < 4 {
      CutSize(s);
    }
  }

  /** A frame of one to three bytes is a response when they are zeros, and otherwise without a branch. */
  lemma TinyFrame(f: bytes, tail: bytes)
    requires 0 < |f| < 4
    ensures TurnOf(First(0), [0, 0, 0, |f| as byte] + (f + tail))
         == Goes(f, if f == Zeros(|f|) then First(0) else First(|f|), tail)
  {
    hide TurnOf, PaddedHead, Head;
    TinyNumbers(f);
    FirstSized([0, 0, 0, |f| as byte], f, tail);
  }

  lemma TinyNumbers(f: bytes)
    requires 0 < |f| < 4
    ensures Head([0, 0, 0, |f| as byte]) == |f|
    ensures (PaddedHead(f) == RESPONSE <==> f == Zeros(|f|)) && PaddedHead(f) != MESSAGE
  {
    SmallSize(|f|);
    hide Head, Zeros;
    ZeroHead(f);
    CutSize(f);
  }

  lemma SmallSize(n: nat)
    requires n < 256
    ensures Head([0, 0, 0, n as byte]) == n
  {
  }

  // ----- what becomes of frames without a branch -----

  /** The text "E_INVALID" as nsqd sends it, with frame type 1. */
  const ERROR_FRAME: bytes := [0, 0, 0, 1, 0x45, 0x5F, 0x49, 0x4E, 0x56, 0x41, 0x4C, 0x49, 0x44]

  /** Handled frames are passed one by one. */
  lemma {:induction false} HandledPass(hs: seq<bytes>, rest: bytes)
    requires forall h :: h in hs ==> Handled(h)
    ensures var c := Turns(First(0), rest); Turns(First(0), Stream(hs) + rest) == Call(hs + c.frames, c.end)
    decreases |hs|
  {
    hide Turns, Handled, Wire;
    if hs == [] {
      assert Stream(hs) + rest == rest;
    } else {
      assert hs[0] in hs;
      HandledPass(hs[1..], rest);
      assert Stream(hs) + rest == Wire(hs[0]) + (Stream(hs[1..]) + rest);
      HandledGoes(hs[0], Stream(hs[1..]) + rest);
    }
  }

  lemma HandledGoes(f: bytes, tail: bytes)
    requires Handled(f)
    ensures var c := Turns(First(0), tail); Turns(First(0), Wire(f) + tail) == Call([f] + c.frames, c.end)
  {
    hide Wire, Turns;
    FirstGoes(f, tail);
  }

  /** A call that resumes a frame with a branch goes on like one that is given the frame whole. */
  lemma ResumedIsFirst(sv: Saved, input: bytes, f: bytes, tail: bytes)
    requires ValidSaved(sv) && Handled(f) && Held(sv) + input == Wire(f) + tail
    ensures CallOf(sv, input) == Turns(First(0), Held(sv) + input)
  {
    hide Wire, Turns;
    WireParts(f, tail);
    if sv.Partial? {
      HeldParts(sv.size, sv.got, input);
      var k := sv.size - |sv.got|;
      var g, rest := sv.got + input[..k], input[k..];
      WireParts(g, rest);
      WithinGoes(sv.size, sv.got, input);
      HandledGoes(f, tail);
    } else {
      assert Held(sv) + input == input;
    }
  }

  /**
   * A message behind a frame without a branch that began in the same call is lost, whatever precedes and
   * follows: the call leaves its block, or goes on behind a frame that starts with zeros and is no message.
   */
  lemma MessageBehindIsLost(sv: Saved, input: bytes, hs: seq<bytes>, f: bytes, g: bytes, tail: bytes)
    requires ValidSaved(sv) && (forall h :: h in hs ==> Handled(h)) && (sv.Partial? ==> hs != [])
    requires 4 <= |f| && Unhandled(f) && IsMessage(g)
    requires Held(sv) + input == Stream(hs) + (Wire(f) + (Wire(g) + tail))
    ensures var c := CallOf(sv, input);
            if |g| < |f| then c == Call(hs + [f], OutOfBounds)
            else var next := Zeros(|f|) + g[..|g| - |f|]; hs + [f, next] <= c.frames && !IsMessage(next)
  {
    hide Turns, Wire, Stream, Handled, IsMessage, Zeros, CallOf, Held, PaddedHead;
    var behind := Wire(g) + tail;
    MessageSize(g);
    CallPasses(sv, input, hs, Wire(f) + behind);
    FirstGoes(f, behind);
    StaleMessage(|f|, g, tail);
    Joined(hs, f, Turns(First(|f|), behind).frames);
  }

  lemma Joined(hs: seq<bytes>, f: bytes, more: seq<bytes>)
    ensures more == [] ==> hs + ([f] + more) == hs + [f]
    ensures more != [] ==> hs + [f, more[0]] <= hs + ([f] + more)
  {
    assert more != [] ==> [f, more[0]] == ([f] + more)[..2];
  }

  lemma CallPasses(sv: Saved, input: bytes, hs: seq<bytes>, rest: bytes)
    requires ValidSaved(sv) && (forall h :: h in hs ==> Handled(h)) && (sv.Partial? ==> hs != [])
    requires Held(sv) + input == Stream(hs) + rest
    ensures var c := Turns(First(0), rest); CallOf(sv, input) == Call(hs + c.frames, c.end)
  {
    hide Turns, Wire, Stream, Handled;
    if sv.Partial? {
      StreamFirst(hs, rest);
      ResumedIsFirst(sv, input, hs[0], Stream(hs[1..]) + rest);
    } else {
      assert Held(sv) + input == input;
    }
    HandledPass(hs, rest);
  }

  lemma StreamFirst(hs: seq<bytes>, rest: bytes)
    requires hs != []
    ensures Stream(hs) + rest == Wire(hs[0]) + (Stream(hs[1..]) + rest)
  {
  }

  lemma MessageSize(g: bytes)
    requires IsMessage(g)
    ensures Handled(g) && MESSAGE_PREFIX <= |g| < MAX_FRAME
  {
  }

  lemma StaleMessage(l: nat, g: bytes, tail: bytes)
    requires 4 <= l < MAX_FRAME && IsMessage(g)
    ensures var c := Turns(First(l), Wire(g) + tail);
            if |g| < l then c == Call([], OutOfBounds)
            else var next := Zeros(l) + g[..|g| - l]; [next] <= c.frames && !IsMessage(next)
  {
    hide Wire;
    StaleTurn(l, g, tail);
    StaleCall(l, g, tail);
    if l <= |g| {
      StartsWithZeros(Zeros(l) + g[..|g| - l]);
    }
  }

  /** An error that two reads share, cut anywhere behind its size: the second call never returns. */
  lemma SplitNeverReturns(f: bytes, cut: nat, behind: bytes)
    requires 4 <= |f| < MAX_FRAME && Unhandled(f) && 4 <= cut < 4 + |f|
    ensures var saved := Partial(|f|, f[..cut - 4]);
            && CallOf(Idle, Wire(f)[..cut]) == Call([], Returns(saved, []))
            && CallOf(saved, Wire(f)[cut..] + behind).end.NeverReturns?
  {
    hide Turns, BigEndian, Unhandled;
    var n := cut - 4;
    var s, input := Wire(f)[..cut], Wire(f)[cut..] + behind;
    assert s == BigEndian(|f|, 4) + f[..n] && input == f[n..] + behind;
    CutSaves(f, n);
    NeverReturnsIff(Partial(|f|, f[..n]), input);
    assert f[..n] + input[..|f| - n] == f;
  }

  /** A call that ends in a body saves what is there of it. */
  lemma CutSaves(f: bytes, n: nat)
    requires 4 <= |f| < MAX_FRAME && n < |f|
    ensures CallOf(Idle, BigEndian(|f|, 4) + f[..n]) == Call([], Returns(Partial(|f|, f[..n]), []))
  {
    hide Turns, BigEndian;
    var s := BigEndian(|f|, 4) + f[..n];
    HeldParts(|f|, [], f[..n]);
    assert Held(Partial(|f|, [])) + f[..n] == s;
    HeadOf(|f|, f[..n]);
    RestExact(s);
    assert Parse(s) == Parsed([], s);
  }

  /** As it happens to nsqd's answer to a malformed command, received in two reads of ten and seven bytes. */
  lemma ErrorNeverReturns()
    ensures var first := CallOf(Idle, [0, 0, 0, 13] + ERROR_FRAME[..6]);
            && first.end == Returns(Partial(13, ERROR_FRAME[..6]), [])
            && CallOf(first.end.saved, ERROR_FRAME[6..]).end.NeverReturns?
  {
    assert BigEndian(13, 4) == [0, 0, 0, 13] by {
      assert BigEndian(13, 2) == [0, 13];
    }
    SplitNeverReturns(ERROR_FRAME, 10, []);
    assert Wire(ERROR_FRAME)[..10] == [0, 0, 0, 13] + ERROR_FRAME[..6];
    assert Wire(ERROR_FRAME)[10..] + [] == ERROR_FRAME[6..];
  }
}
