/** The text commands of command.c and sub.c, and a reader for the stream they form. */
module Commands {
  import opened Bytes
  import opened Lists
  import opened Wrappers

  const NUL: byte := 0
  const NEWLINE: byte := 10
  const SPACE: byte := 32
  const MINUS: byte := 45
  const ZERO: byte := 48

  const SUB: bytes := [0x53, 0x55, 0x42]  // "SUB"
  const RDY: bytes := [0x52, 0x44, 0x59]  // "RDY"
  const FIN: bytes := [0x46, 0x49, 0x4E]  // "FIN"
  const REQ: bytes := [0x52, 0x45, 0x51]  // "REQ"
  const NOP: bytes := [0x4E, 0x4F, 0x50]  // "NOP"

  datatype Command =
    | Sub(topic: bytes, channel: bytes)
    | Rdy(count: int)
    | Fin(id: bytes)
    | Req(id: bytes, timeout: int)
    | Nop

  // ----- printing -----

  /** printf's "%d". */
  function Decimal(n: int): bytes {
    if n < 0 then [MINUS] + Digits(-n) else Digits(n)
  }

  function Digits(n: nat): (s: bytes)
    ensures s != [] && forall i :: 0 <= i < |s| ==> ZERO <= s[i] <= ZERO + 9
  {
    if n < 10 then [ZERO + n as byte] else Digits(n / 10) + [ZERO + (n % 10) as byte]
  }

  function Line(c: Command): bytes {
    match c
    case Sub(topic, channel) => SUB + [SPACE] + topic + [SPACE] + channel
    case Rdy(count) => RDY + [SPACE] + Decimal(count)
    case Fin(id) => FIN + [SPACE] + id
    case Req(id, timeout) => REQ + [SPACE] + id + [SPACE] + Decimal(timeout)
    case Nop => NOP
  }

  function Print(c: Command): bytes {
    Line(c) + [NEWLINE]
  }

  function PrintAll(cs: seq<Command>): bytes {
    Collect(Print, cs)
  }

  /** What "%s" prints of a buffer: everything before the first NUL. */
  function CString(s: bytes): bytes {
    if s == [] || s[0] == NUL then [] else [s[0]] + CString(s[1..])
  }

  // ----- the text, byte by byte -----

  /** The value of decimal digits in ASCII, most significant first. */
  function AsciiValue(s: bytes): int {
    if s == [] then 0 else 10 * AsciiValue(s[..|s| - 1]) + (s[|s| - 1] as int - 0x30)
  }

  predicate AsciiNumber(s: bytes) {
    s != [] && (forall c :: c in s ==> 0x30 <= c <= 0x39) && (|s| > 1 ==> s[0] != 0x30)
  }

  lemma {:induction false} DigitsAscii(n: nat)
    ensures AsciiNumber(Digits(n)) && AsciiValue(Digits(n)) == n && (n > 0 ==> Digits(n)[0] != 0x30)
  {
    if n >= 10 {
      DigitsAscii(n / 10);
      assert Digits(n)[..|Digits(n)| - 1] == Digits(n / 10);
    } else {
      assert Digits(n)[..0] == [];
    }
  }

  /** Decimal ASCII digits without leading zeros, behind a minus sign if the number is negative. */
  lemma DecimalAscii(n: int)
    ensures n >= 0 ==> AsciiNumber(Decimal(n)) && AsciiValue(Decimal(n)) == n
    ensures n < 0 ==> Decimal(n)[0] == 0x2D && Decimal(n)[1..] == Decimal(-n)
  {
    DigitsAscii(if n < 0 then -n else n);
  }

  /** The lines of command.c: names, spaces and line feeds in ASCII. */
  lemma LinesAscii(topic: bytes, channel: bytes, id: bytes, n: int)
    ensures Print(Sub(topic, channel)) == [0x53, 0x55, 0x42, 0x20] + topic + [0x20] + channel + [0x0A]
    ensures Print(Rdy(n)) == [0x52, 0x44, 0x59, 0x20] + Decimal(n) + [0x0A]
    ensures Print(Fin(id)) == [0x46, 0x49, 0x4E, 0x20] + id + [0x0A]
    ensures Print(Req(id, n)) == [0x52, 0x45, 0x51, 0x20] + id + [0x20] + Decimal(n) + [0x0A]
    ensures Print(Nop) == [0x4E, 0x4F, 0x50, 0x0A]
  {
    hide Decimal;
    assert SUB + [SPACE] == [0x53, 0x55, 0x42, 0x20] && RDY + [SPACE] == [0x52, 0x44, 0x59, 0x20];
    assert FIN + [SPACE] == [0x46, 0x49, 0x4E, 0x20] && REQ + [SPACE] == [0x52, 0x45, 0x51, 0x20];
  }

  /** What "%s" prints is w exactly when w is all there is, or is ended by a NUL. */
  lemma {:induction false} CStringIs(s: bytes, w: bytes)
    requires 0 !in w
    ensures CString(s) == w <==> s == w || (|s| > |w| && s[..|w| + 1] == w + [0])
  {
    if s != [] && s[0] != NUL && w != [] {
      CStringIs(s[1..], w[1..]);
      assert w == [w[0]] + w[1..] && s == [s[0]] + s[1..];
      if |s| > |w| {
        assert s[..|w| + 1] == [s[0]] + s[1..][..|w|];
        assert w + [0] == [w[0]] + (w[1..] + [0]);
      }
    }
  }

  // ----- reading -----

  function Cut(s: bytes, sep: byte): seq<bytes>
    ensures Cut(s, sep) != []
  {
    if s == [] then [[]]
    else if s[0] == sep then [[]] + Cut(s[1..], sep)
    else
      var rest := Cut(s[1..], sep);
      [[s[0]] + rest[0]] + rest[1..]
  }

  function ReadDigits(s: bytes): Option<nat> {
    if s == [] then None
    else
      var d := s[|s| - 1];
      if !(ZERO <= d <= ZERO + 9) then None
      else if |s| == 1 then Some((d - ZERO) as nat)
      else
        match ReadDigits(s[..|s| - 1])
        case None => None
        case Some(n) => Some(10 * n + (d - ZERO) as nat)
  }

  function ReadDecimal(s: bytes): Option<int> {
    if s != [] && s[0] == MINUS then
      match ReadDigits(s[1..])
      case None => None
      case Some(n) => var v: int := n; Some(-v)
    else
      match ReadDigits(s)
      case None => None
      case Some(n) => Some(n)
  }

  function ReadFields(fields: seq<bytes>): Option<Command>
    requires fields != []
  {
    if fields[0] == SUB && |fields| == 3 then Some(Sub(fields[1], fields[2]))
    else if fields[0] == RDY && |fields| == 2 then
      match ReadDecimal(fields[1])
      case None => None
      case Some(n) => Some(Rdy(n))
    else if fields[0] == FIN && |fields| == 2 then Some(Fin(fields[1]))
    else if fields[0] == REQ && |fields| == 3 then
      match ReadDecimal(fields[2])
      case None => None
      case Some(n) => Some(Req(fields[1], n))
    else if fields == [NOP] then Some(Nop)
    else None
  }

  function ReadLine(line: bytes): Option<Command> {
    ReadFields(Cut(line, SPACE))
  }

  /** All lines but the last, which must be empty. */
  function ReadLines(lines: seq<bytes>): Option<seq<Command>>
    requires lines != []
  {
    if |lines| == 1 then
      if lines[0] == [] then Some([]) else None
    else
      match ReadLine(lines[0])
      case None => None
      case Some(c) =>
        match ReadLines(lines[1..])
        case None => None
        case Some(cs) => Some([c] + cs)
  }

  function ReadAll(s: bytes): Option<seq<Command>> {
    ReadLines(Cut(s, NEWLINE))
  }

  // ----- the reader inverts the printer -----

  /** A C string that can be one field of one line. */
  predicate Word(w: bytes) {
    NUL !in w && SPACE !in w && NEWLINE !in w
  }

  predicate Printable(c: Command) {
    match c
    case Sub(topic, channel) => Word(topic) && Word(channel)
    case Rdy(count) => IsInt32(count)
    case Fin(id) => Word(id)
    case Req(id, timeout) => Word(id) && IsInt32(timeout)
    case Nop => true
  }

  lemma {:induction false} CutFirst(w: bytes, tail: bytes, sep: byte)
    requires sep !in w
    ensures Cut(w + [sep] + tail, sep) == [w] + Cut(tail, sep)
  {
    var s := w + [sep] + tail;
    if w == [] {
      assert s[1..] == tail;
    } else {
      assert s[1..] == w[1..] + [sep] + tail;
      CutFirst(w[1..], tail, sep);
      assert ([w[1..]] + Cut(tail, sep))[1..] == Cut(tail, sep);
      assert [w[0]] + w[1..] == w;
    }
  }

  lemma {:induction false} CutLast(w: bytes, sep: byte)
    requires sep !in w
    ensures Cut(w, sep) == [w]
  {
    if w == [] {
    } else {
      CutLast(w[1..], sep);
      assert [w[0]] + w[1..] == w;
    }
  }

  lemma {:induction false} ReadDigitsInverse(n: nat)
    ensures ReadDigits(Digits(n)) == Some(n)
  {
    if n < 10 {
    } else {
      ReadDigitsInverse(n / 10);
      var s := Digits(n);
      assert s[..|s| - 1] == Digits(n / 10);
    }
  }

  lemma DecimalInverse(n: int)
    ensures ReadDecimal(Decimal(n)) == Some(n)
    ensures Word(Decimal(n))
  {
    ReadDigitsInverse(if n < 0 then -n else n);
    if n < 0 {
      assert Decimal(n)[1..] == Digits(-n);
    }
  }

  lemma Cut1(a: bytes)
    requires SPACE !in a
    ensures Cut(a, SPACE) == [a]
  {
    CutLast(a, SPACE);
  }

  lemma Cut2(a: bytes, b: bytes)
    requires SPACE !in a && SPACE !in b
    ensures Cut(a + [SPACE] + b, SPACE) == [a, b]
  {
    CutFirst(a, b, SPACE);
    CutLast(b, SPACE);
  }

  lemma Cut3(a: bytes, b: bytes, c: bytes)
    requires SPACE !in a && SPACE !in b && SPACE !in c
    ensures Cut(a + [SPACE] + b + [SPACE] + c, SPACE) == [a, b, c]
  {
    assert a + [SPACE] + b + [SPACE] + c == a + [SPACE] + (b + [SPACE] + c);
    CutFirst(a, b + [SPACE] + c, SPACE);
    Cut2(b, c);
  }

  lemma LineIsOneLine(c: Command)
    requires Printable(c)
    ensures NEWLINE !in Line(c)
  {
    if c.Rdy? {
      DecimalInverse(c.count);
    } else if c.Req? {
      DecimalInverse(c.timeout);
    }
  }

  function Fields(c: Command): (fs: seq<bytes>)
    ensures fs != []
  {
    match c
    case Sub(topic, channel) => [SUB, topic, channel]
    case Rdy(count) => [RDY, Decimal(count)]
    case Fin(id) => [FIN, id]
    case Req(id, timeout) => [REQ, id, Decimal(timeout)]
    case Nop => [NOP]
  }

  lemma CutLine(c: Command)
    requires Printable(c)
    ensures Cut(Line(c), SPACE) == Fields(c)
  {
    match c
    case Sub(topic, channel) => Cut3(SUB, topic, channel);
    case Rdy(count) =>
      DecimalInverse(count);
      Cut2(RDY, Decimal(count));
    case Fin(id) => Cut2(FIN, id);
    case Req(id, timeout) =>
      DecimalInverse(timeout);
      Cut3(REQ, id, Decimal(timeout));
    case Nop => Cut1(NOP);
  }

  lemma ReadFieldsInverse(c: Command)
    ensures ReadFields(Fields(c)) == Some(c)
  {
    if c.Rdy? {
      DecimalInverse(c.count);
    } else if c.Req? {
      DecimalInverse(c.timeout);
    }
    assert SUB[0] != RDY[0] && SUB[0] != REQ[0] && RDY[1] != REQ[1] && FIN[0] != RDY[0] && NOP[0] != RDY[0];
  }

  lemma ReadLineInverse(c: Command)
    requires Printable(c)
    ensures ReadLine(Line(c)) == Some(c)
  {
    CutLine(c);
    ReadFieldsInverse(c);
  }

  /** The stream of all commands written reads back as those commands. */
  lemma {:induction false} ReadAllInverse(cs: seq<Command>)
    requires forall c :: c in cs ==> Printable(c)
    ensures ReadAll(PrintAll(cs)) == Some(cs)
  {
    if cs == [] {
    } else {
      assert Printable(cs[0]);
      ReadLineInverse(cs[0]);
      LineIsOneLine(cs[0]);
      ReadAllInverse(cs[1..]);
      var tail := PrintAll(cs[1..]);
      assert PrintAll(cs) == Line(cs[0]) + [NEWLINE] + tail;
      CutFirst(Line(cs[0]), tail, NEWLINE);
      assert ([Line(cs[0])] + Cut(tail, NEWLINE))[1..] == Cut(tail, NEWLINE);
      assert [cs[0]] + cs[1..] == cs;
    }
  }

  /** Different command lists are different on the wire. */
  lemma PrintAllInjective(cs: seq<Command>, ds: seq<Command>)
    requires forall c :: c in cs ==> Printable(c)
    requires forall d :: d in ds ==> Printable(d)
    requires PrintAll(cs) == PrintAll(ds)
    ensures cs == ds
  {
    ReadAllInverse(cs);
    ReadAllInverse(ds);
  }

  lemma PrintAllAppend(cs: seq<Command>, ds: seq<Command>)
    ensures PrintAll(cs + ds) == PrintAll(cs) + PrintAll(ds)
  {
    CollectAppend(Print, cs, ds);
  }

  lemma PrintAllSnoc(cs: seq<Command>, c: Command)
    ensures PrintAll(cs + [c]) == PrintAll(cs) + Print(c)
  {
    PrintAllAppend(cs, [c]);
    CollectOne(Print, c);
  }

  // ----- what fits the fixed buffers -----

  const MAX_BUF_SIZE := 128
  const FIN_BUF_SIZE := 64
  const REQ_BUF_SIZE := 128

  /** sprintf also writes a terminating NUL. */
  predicate Fits(text: bytes, capacity: nat) {
    |text| + 1 <= capacity
  }

  lemma {:induction false} DigitsLength(n: nat, k: nat, bound: nat)
    requires k > 0 && bound == Power10(k) && n < bound
    ensures |Digits(n)| <= k
  {
    if n >= 10 {
      DigitsLength(n / 10, k - 1, Power10(k - 1));
    }
  }

  function Power10(k: nat): nat {
    if k == 0 then 1 else 10 * Power10(k - 1)
  }

  lemma DecimalLength(n: int)
    requires IsInt32(n)
    ensures |Decimal(n)| <= 11
  {
    assert Power10(10) == 10_000_000_000;
    DigitsLength(if n < 0 then -n else n, 10, Power10(10));
  }

  /** Exactly which commands fit; ids have 16 bytes, integers 32 bits. */
  lemma BufferBounds(c: Command)
    requires Printable(c) && (c.Fin? || c.Req? ==> |c.id| <= 16)
    ensures c.Sub? ==> (Fits(Print(c), MAX_BUF_SIZE) <==> |c.topic| + |c.channel| <= 121)
    ensures !c.Sub? ==> Fits(Print(c), MAX_BUF_SIZE) && Fits(Print(c), REQ_BUF_SIZE)
    ensures c.Fin? ==> Fits(Print(c), FIN_BUF_SIZE)
  {
    if c.Rdy? {
      DecimalLength(c.count);
    } else if c.Req? {
      DecimalLength(c.timeout);
    }
  }

  /** A printed id names the message exactly when it contains no NUL. */
  lemma {:induction false} CStringWhole(s: bytes)
    ensures CString(s) == s <==> NUL !in s
    ensures NUL !in CString(s) && CString(s) <= s
  {
    if s != [] && s[0] != NUL {
      CStringWhole(s[1..]);
    }
  }
}
