/**
 The body of an HTTP message, one byte at a time: chunked coding and bodies of a given length, as states of
 the parser in strict mode. A byte either moves the parser on, with what that makes known to the user, or is an
 error.
 */
module HttpBody {
  import opened Options
  import opened HttpChars

  /** `ULLONG_MAX`, the marker for an unknown length. */
  const ULLONG_MAX: nat := 0xffff_ffff_ffff_ffff
  const MAX_HEADER_SIZE: nat := 80 * 1024

  datatype State =
    | ChunkSizeStart
    | ChunkSize
    | ChunkParameters
    | ChunkSizeAlmostDone
      /** Behind the last chunk: only an empty trailer section is modelled. */
    | HeaderFieldStart
    | HeadersAlmostDone
    | ChunkData
    | ChunkDataAlmostDone
    | ChunkDataDone
    | BodyIdentity
      /** The message is over; what follows is another one's. */
    | Complete

  datatype Errno =
    | InvalidChunkSize
    | InvalidContentLength
    | Strict
    | HeaderOverflow
      /** Trailer fields are not modelled; whatever the parser makes of them counts as an error here. */
    | TrailerField
    | InvalidEofState

  /** What the user is told, with body bytes one by one. */
  datatype Event = ChunkHeader(length: nat) | BodyByte(ch: char) | ChunkComplete | MessageComplete

  datatype Parser = Parser(state: State, length: nat, nread: nat)

  datatype Step = Next(parser: Parser, events: seq<Event>) | Fail(errno: Errno)

  /** What the parser takes for a digit of a chunk size: a hexadecimal digit, or a byte beyond ASCII. */
  ghost predicate SizeDigit(ch: char) {
    Hexadecimal(ch) || BeyondAscii(ch)
  }

  /** What such a digit is worth; a byte beyond ASCII, nought. */
  ghost function DigitWorth(ch: char): (v: nat)
    requires SizeDigit(ch)
    ensures v < 16
  {
    if BeyondAscii(ch) then 0 else HexDigit(ch)
  }

  /** `unhex`: a table of 256 places, of which only those for ASCII are filled in; all others are nought. */
  function Unhex(ch: char): (v: int)
    ensures v == if SizeDigit(ch) then DigitWorth(ch) else -1
  {
    HexadecimalsAre(ch);
    if '0' <= ch <= '9' then ch as int - '0' as int
    else if 'A' <= ch <= 'F' then ch as int - 'A' as int + 10
    else if 'a' <= ch <= 'f' then ch as int - 'a' as int + 10
    else if ch as int < 128 then -1
    else 0
  }

  /** `PARSING_HEADER`: the states whose bytes are counted against the header size limit. */
  predicate ParsingHeader(s: State) {
    match s
    case ChunkData | ChunkDataAlmostDone | ChunkDataDone | BodyIdentity | Complete => false
    case _ => true
  }

  /** `hex` digits so far and one more: refused when there may be an overflow. */
  function MoreDigits(length: nat, digit: nat, base: nat): Option<nat>
    requires base > 0
  {
    if (ULLONG_MAX - base) / base < length then None else Some(length * base + digit)
  }

  function StepChunkSize(p: Parser, ch: char): Step {
    if ch == '\r' then Next(p.(state := ChunkSizeAlmostDone), [])
    else if Unhex(ch) == -1 then
      if ch == ';' || ch == ' ' then Next(p.(state := ChunkParameters), []) else Fail(InvalidChunkSize)
    else match MoreDigits(p.length, Unhex(ch), 16)
      case None => Fail(InvalidContentLength)
      case Some(t) => Next(p.(length := t), [])
  }

  /** The states in which a byte is not data, once it has been counted. */
  function StepState(p: Parser, ch: char): Step {
    match p.state
    case ChunkSizeStart =>
      if Unhex(ch) == -1 then Fail(InvalidChunkSize) else Next(p.(state := ChunkSize, length := Unhex(ch)), [])
    case ChunkSize => StepChunkSize(p, ch)
    case ChunkParameters => if ch == '\r' then Next(p.(state := ChunkSizeAlmostDone), []) else Next(p, [])
    case ChunkSizeAlmostDone =>
      if ch != '\n' then Fail(Strict)
      else Next(Parser(if p.length == 0 then HeaderFieldStart else ChunkData, p.length, 0), [ChunkHeader(p.length)])
    case HeaderFieldStart =>
      if ch == '\r' then Next(p.(state := HeadersAlmostDone), [])
      else if ch == '\n' then Next(p.(state := Complete), [ChunkComplete, MessageComplete])
      else Fail(TrailerField)
    case HeadersAlmostDone =>
      if ch != '\n' then Fail(Strict) else Next(p.(state := Complete), [ChunkComplete, MessageComplete])
    case ChunkDataAlmostDone => if ch != '\r' then Fail(Strict) else Next(p.(state := ChunkDataDone), [])
    case ChunkDataDone =>
      if ch != '\n' then Fail(Strict) else Next(Parser(ChunkSizeStart, p.length, 0), [ChunkComplete])
    case ChunkData =>
      var rest := if p.length > 0 then p.length - 1 else 0;
      Next(Parser(if rest == 0 then ChunkDataAlmostDone else ChunkData, rest, p.nread), [BodyByte(ch)])
    case BodyIdentity =>
      var rest := if p.length > 0 then p.length - 1 else 0;
      Next(Parser(if rest == 0 then Complete else BodyIdentity, rest, p.nread),
           if rest == 0 then [BodyByte(ch), MessageComplete] else [BodyByte(ch)])
    case Complete => Next(p, [])
  }

  function StepByte(p: Parser, ch: char): Step {
    var nread := p.nread + if ParsingHeader(p.state) then 1 else 0;
    if ParsingHeader(p.state) && nread > MAX_HEADER_SIZE then Fail(HeaderOverflow)
    else StepState(p.(nread := nread), ch)
  }

  /** Where a run over a string ends: `consumed` bytes on, with everything told so far, perhaps at an error. */
  datatype Outcome = Outcome(parser: Parser, events: seq<Event>, consumed: nat, errno: Option<Errno>)

  /** Byte by byte, up to the end of the string or of the message, or to an error. */
  function Run(p: Parser, s: string): Outcome
    decreases |s|
  {
    if s == [] || p.state.Complete? then Outcome(p, [], 0, None)
    else match StepByte(p, s[0])
      case Fail(e) => Outcome(p, [], 0, Some(e))
      case Next(p', events) => After(events, Run(p', s[1..]))
  }

  /** One byte, and then the rest. */
  function After(events: seq<Event>, rest: Outcome): Outcome {
    Outcome(rest.parser, events + rest.events, rest.consumed + 1, rest.errno)
  }

  /** One run, and then another from where it ended. */
  function Then(a: Outcome, b: Outcome): Outcome {
    Outcome(b.parser, a.events + b.events, a.consumed + b.consumed, b.errno)
  }

  lemma {:induction false} RunSplit(p: Parser, s: string, t: string)
    ensures Run(p, s).errno.Some? ==> Run(p, s + t) == Run(p, s)
    ensures Run(p, s).errno.None? ==> Run(p, s + t) == Then(Run(p, s), Run(Run(p, s).parser, t))
    decreases |s|
  {
    if s == [] {
      assert s + t == t;
    } else if !p.state.Complete? {
      match StepByte(p, s[0]) {
        case Fail(_) =>
        case Next(p', events) =>
          RunSplit(p', s[1..], t);
          assert (s + t)[1..] == s[1..] + t;
          ThenAfter(events, Run(p', s[1..]), Run(Run(p', s[1..]).parser, t));
      }
    }
  }

  lemma ThenAfter(events: seq<Event>, a: Outcome, b: Outcome)
    ensures Then(After(events, a), b) == After(events, Then(a, b))
  {
    assert events + a.events + b.events == events + (a.events + b.events);
  }

  /** A run without error stops only at the end of the string or of the message. */
  lemma {:induction false} RunConsumes(p: Parser, s: string)
    ensures Run(p, s).consumed <= |s|
    ensures Run(p, s).errno.None? && !Run(p, s).parser.state.Complete? ==> Run(p, s).consumed == |s|
    decreases |s|
  {
    if s != [] && !p.state.Complete? {
      match StepByte(p, s[0]) {
        case Fail(_) =>
        case Next(p', events) => RunConsumes(p', s[1..]);
      }
    }
  }

  // ---------------------------------------------------------------- what the source asserts on its way

  /** Inside data a length is known and left; a chunk header starts with the count at zero. */
  ghost predicate Good(p: Parser) {
    && p.length < ULLONG_MAX
    && (p.state.ChunkData? || p.state.BodyIdentity? ==> p.length > 0)
    && (p.state.ChunkDataAlmostDone? ==> p.length == 0)
    && (p.state.ChunkSizeStart? ==> p.nread == 0)
  }

  lemma StepKeepsGood(p: Parser, ch: char)
    requires Good(p)
    ensures StepByte(p, ch).Next? ==> Good(StepByte(p, ch).parser)
  {
  }

  lemma {:induction false} RunKeepsGood(p: Parser, s: string)
    requires Good(p)
    ensures Good(Run(p, s).parser)
    decreases |s|
  {
    if s != [] && !p.state.Complete? {
      StepKeepsGood(p, s[0]);
      match StepByte(p, s[0]) {
        case Fail(_) =>
        case Next(p', events) => RunKeepsGood(p', s[1..]);
      }
    }
  }

  // ---------------------------------------------------------------- data

  function Bytes(s: string): (events: seq<Event>)
    ensures |events| == |s|
  {
    if s == [] then [] else [BodyByte(s[0])] + Bytes(s[1..])
  }

  lemma BytesNext(s: string)
    ensures Bytes(s) == if s == [] then [] else [BodyByte(s[0])] + Bytes(s[1..])
  {
  }

  lemma {:induction false} BytesConcat(s: string, t: string)
    ensures Bytes(s + t) == Bytes(s) + Bytes(t)
  {
    hide Bytes;
    BytesNext(s);
    if s == [] {
      assert s + t == t;
    } else {
      BytesNext(s + t);
      BytesConcat(s[1..], t);
      assert (s + t)[1..] == s[1..] + t;
    }
  }

  /** The state in which a run of data with `rest` bytes to go leaves the parser. */
  function DataEnd(s: State, rest: nat): State {
    if rest > 0 then s else if s.ChunkData? then ChunkDataAlmostDone else Complete
  }

  function DataEvents(s: State, data: string, rest: nat): seq<Event> {
    Bytes(data) + if rest == 0 && s.BodyIdentity? then [MessageComplete] else []
  }

  /** Data is passed on as it is, as many bytes as announced. */
  lemma {:induction false} RunData(p: Parser, s: string)
    requires (p.state.ChunkData? || p.state.BodyIdentity?) && 0 < |s| <= p.length
    ensures var rest := p.length - |s|;
            Run(p, s) == Outcome(Parser(DataEnd(p.state, rest), rest, p.nread), DataEvents(p.state, s, rest), |s|, None)
    decreases |s|
  {
    var p' := StepByte(p, s[0]).parser;
    if |s| == 1 {
      assert s[1..] == [];
    } else {
      RunData(p', s[1..]);
      assert Bytes(s) == [BodyByte(s[0])] + Bytes(s[1..]);
    }
  }

  /** A body of given length is exactly that many bytes, whatever they are and whatever follows. */
  lemma IdentityBody(n: nat, s: string)
    requires 0 < n < ULLONG_MAX && |s| >= n
    ensures Run(Parser(BodyIdentity, n, 0), s) ==
            Outcome(Parser(Complete, 0, 0), Bytes(s[..n]) + [MessageComplete], n, None)
  {
    hide StepByte;
    RunData(Parser(BodyIdentity, n, 0), s[..n]);
    assert s == s[..n] + s[n..];
    RunSplit(Parser(BodyIdentity, n, 0), s[..n], s[n..]);
  }

  // ---------------------------------------------------------------- lengths

  ghost function HexValue(digits: string): nat
    requires AllDigits(digits)
  {
    if digits == [] then 0 else HexValue(digits[..|digits| - 1]) * 16 + DigitWorth(digits[|digits| - 1])
  }

  ghost predicate AllDigits(digits: string) {
    forall i :: 0 <= i < |digits| ==> SizeDigit(digits[i])
  }

  /**
   A chunk size of such digits is accepted exactly when all but its last digit are worth no more than
   the guard allows; it then is the number the digits stand for, and never the marker for an unknown length.
   */
  lemma {:induction false} ChunkSizeExactly(digits: string, length: nat)
    requires AllDigits(digits) && 0 < |digits| <= MAX_HEADER_SIZE
    ensures var r := Run(Parser(ChunkSizeStart, length, 0), digits);
            if HexValue(digits[..|digits| - 1]) <= (ULLONG_MAX - 16) / 16
            then r == Outcome(Parser(ChunkSize, HexValue(digits), |digits|), [], |digits|, None)
            else r.errno == Some(InvalidContentLength)
    ensures HexValue(digits[..|digits| - 1]) <= (ULLONG_MAX - 16) / 16 ==> HexValue(digits) < ULLONG_MAX
    decreases |digits|
  {
    hide StepByte, SizeDigit, DigitWorth;
    var p, init, last := Parser(ChunkSizeStart, length, 0), digits[..|digits| - 1], digits[|digits| - 1];
    assert SizeDigit(last);
    if |digits| == 1 {
      assert init == [] && digits == [last];
      DigitSteps(p, last);
      assert Run(StepByte(p, last).parser, digits[1..]) == Outcome(StepByte(p, last).parser, [], 0, None);
    } else {
      ChunkSizeExactly(init, length);
      assert digits == init + [last];
      RunSplit(p, init, [last]);
      var mid := Run(p, init);
      if mid.errno.None? {
        DigitSteps(mid.parser, last);
        RunOne(mid.parser, last);
      } else {
        HexGrows(init);
      }
    }
  }

  /** A digit is taken for what it is worth, unless there may be an overflow. */
  lemma DigitSteps(p: Parser, ch: char)
    requires SizeDigit(ch) && p.nread < MAX_HEADER_SIZE
    ensures p.state.ChunkSizeStart? ==> StepByte(p, ch) == Next(Parser(ChunkSize, DigitWorth(ch), p.nread + 1), [])
    ensures p.state.ChunkSize? ==>
      StepByte(p, ch) == if p.length <= (ULLONG_MAX - 16) / 16
                         then Next(Parser(ChunkSize, p.length * 16 + DigitWorth(ch), p.nread + 1), [])
                         else Fail(InvalidContentLength)
  {
    hide Hexadecimal, HexDigit, Unhex;
    HexadecimalsAre(ch);
  }

  function StepOutcome(p: Parser, step: Step): Outcome {
    match step
    case Fail(e) => Outcome(p, [], 0, Some(e))
    case Next(p', events) => Outcome(p', events, 1, None)
  }

  lemma RunOne(p: Parser, ch: char)
    requires !p.state.Complete?
    ensures Run(p, [ch]) == StepOutcome(p, StepByte(p, ch))
  {
    assert [ch][1..] == [];
  }

  lemma HexGrows(digits: string)
    requires AllDigits(digits) && digits != []
    ensures HexValue(digits) >= HexValue(digits[..|digits| - 1])
  {
  }
}
