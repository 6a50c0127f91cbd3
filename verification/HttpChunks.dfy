/**
 Chunked coding, section 4.1 of RFC 7230: how a body is cut into chunks on the wire, and that the parser
 recovers exactly the chunks. The size of a chunk may be spelled with leading zeros and in either case, and may
 be followed by an extension.
 */
module HttpChunks {
  import opened Options
  import opened HttpBody

  /** A chunk line: the size in hexadecimal digits, and what else stands on the line. */
  datatype Line = Line(digits: string, extension: string)

  datatype Chunk = Chunk(line: Line, data: string)

  /** The lines the parser takes, for a chunk of `n` bytes. */
  ghost predicate GoodLine(l: Line, n: nat) {
    && AllDigits(l.digits) && l.digits != [] && HexValue(l.digits) == n
    && HexValue(l.digits[..|l.digits| - 1]) <= (ULLONG_MAX - 16) / 16
    && (l.extension == [] || ((l.extension[0] == ';' || l.extension[0] == ' ') && NoCr(l.extension)))
    && |l.digits| + |l.extension| + 2 <= MAX_HEADER_SIZE
  }

  predicate NoCr(s: string) {
    forall i :: 0 <= i < |s| ==> s[i] != '\r'
  }

  ghost predicate GoodChunk(c: Chunk) {
    c.data != [] && GoodLine(c.line, |c.data|)
  }

  const CRLF: string := ['\r', '\n']

  function EncodeLine(l: Line): string {
    l.digits + l.extension + CRLF
  }

  function EncodeChunk(c: Chunk): string {
    EncodeLine(c.line) + (c.data + CRLF)
  }

  function EncodeChunks(cs: seq<Chunk>): string {
    if cs == [] then [] else EncodeChunk(cs[0]) + EncodeChunks(cs[1..])
  }

  /** The parser lets a line feed alone end an empty trailer section. */
  predicate EndsTrailer(end: string) {
    end == CRLF || end == ['\n']
  }

  /** The whole body: the chunks, the last chunk, and the end of an empty trailer section. */
  function Encode(cs: seq<Chunk>, last: Line, end: string): string {
    EncodeChunks(cs) + (EncodeLine(last) + end)
  }

  function ChunkEvents(c: Chunk): seq<Event> {
    [ChunkHeader(|c.data|)] + Bytes(c.data) + [ChunkComplete]
  }

  function ChunksEvents(cs: seq<Chunk>): seq<Event> {
    if cs == [] then [] else ChunkEvents(cs[0]) + ChunksEvents(cs[1..])
  }

  /** What the user should be told of them. */
  function BodyEvents(cs: seq<Chunk>): seq<Event> {
    ChunksEvents(cs) + [ChunkHeader(0), ChunkComplete, MessageComplete]
  }

  function Start(length: nat): Parser {
    Parser(ChunkSizeStart, length, 0)
  }

  lemma {:induction false} ExtensionRuns(p: Parser, e: string)
    requires p.state.ChunkParameters? && NoCr(e) && p.nread + |e| <= MAX_HEADER_SIZE
    ensures Run(p, e) == Outcome(p.(nread := p.nread + |e|), [], |e|, None)
    decreases |e|
  {
    if e != [] {
      ExtensionRuns(p.(nread := p.nread + 1), e[1..]);
    }
  }

  /** From the end of the digits to the end of the line. */
  lemma LineEndRuns(p: Parser)
    requires (p.state.ChunkSize? || p.state.ChunkParameters?) && p.nread + 2 <= MAX_HEADER_SIZE
    ensures Run(p, CRLF) ==
            Outcome(Parser(if p.length == 0 then HeaderFieldStart else ChunkData, p.length, 0), [ChunkHeader(p.length)], 2, None)
  {
    assert CRLF == ['\r'] + ['\n'];
    RunOne(p, '\r');
    RunSplit(p, ['\r'], ['\n']);
    RunOne(Run(p, ['\r']).parser, '\n');
  }

  lemma ExtensionStarts(p: Parser, e: string)
    requires p.state.ChunkSize? && e != [] && (e[0] == ';' || e[0] == ' ') && NoCr(e) && p.nread + |e| <= MAX_HEADER_SIZE
    ensures Run(p, e) == Outcome(Parser(ChunkParameters, p.length, p.nread + |e|), [], |e|, None)
  {
    ExtensionRuns(Parser(ChunkParameters, p.length, p.nread + 1), e[1..]);
  }

  lemma LineRuns(length: nat, l: Line, n: nat)
    requires GoodLine(l, n)
    ensures Run(Start(length), EncodeLine(l)) ==
            Outcome(Parser(if n == 0 then HeaderFieldStart else ChunkData, n, 0), [ChunkHeader(n)], |EncodeLine(l)|, None)
  {
    hide Run;
    var p := Start(length);
    ChunkSizeExactly(l.digits, length);
    var p1 := Parser(ChunkSize, n, |l.digits|);
    if l.extension == [] {
      RunEmpty(p1);
    } else {
      ExtensionStarts(p1, l.extension);
    }
    RunSplit(p, l.digits, l.extension);
    var p2 := Run(p1, l.extension).parser;
    RunSplit(p, l.digits + l.extension, CRLF);
    LineEndRuns(p2);
  }

  lemma RunEmpty(p: Parser)
    ensures Run(p, []) == Outcome(p, [], 0, None)
  {
  }

  lemma DataEndRuns(n: nat)
    ensures Run(Parser(ChunkDataAlmostDone, n, 0), CRLF) == Outcome(Start(n), [ChunkComplete], 2, None)
  {
    assert CRLF == ['\r'] + ['\n'];
    var p := Parser(ChunkDataAlmostDone, n, 0);
    RunOne(p, '\r');
    RunSplit(p, ['\r'], ['\n']);
    RunOne(Run(p, ['\r']).parser, '\n');
  }

  lemma ChunkRuns(length: nat, c: Chunk)
    requires GoodChunk(c)
    ensures Run(Start(length), EncodeChunk(c)) == Outcome(Start(0), ChunkEvents(c), |EncodeChunk(c)|, None)
  {
    hide Run;
    var p, line := Start(length), EncodeLine(c.line);
    LineRuns(length, c.line, |c.data|);
    var p1 := Parser(ChunkData, |c.data|, 0);
    RunSplit(p, line, c.data + CRLF);
    RunData(p1, c.data);
    RunSplit(p1, c.data, CRLF);
    DataEndRuns(0);
    assert [ChunkHeader(|c.data|)] + (Bytes(c.data) + [ChunkComplete]) == ChunkEvents(c);
  }

  lemma {:induction false} ChunksRun(length: nat, cs: seq<Chunk>)
    requires forall i :: 0 <= i < |cs| ==> GoodChunk(cs[i])
    ensures var r := Run(Start(length), EncodeChunks(cs));
            r.errno.None? && r.consumed == |EncodeChunks(cs)| && r.events == ChunksEvents(cs)
            && r.parser == Start(if cs == [] then length else 0)
    decreases |cs|
  {
    hide Run;
    if cs == [] {
      RunEmpty(Start(length));
    } else {
      ChunkRuns(length, cs[0]);
      ChunksRun(0, cs[1..]);
      RunSplit(Start(length), EncodeChunk(cs[0]), EncodeChunks(cs[1..]));
    }
  }

  /** Decoding inverts encoding: the chunks come back, and the message ends with the encoding. */
  lemma DecodesEncoding(length: nat, cs: seq<Chunk>, last: Line, end: string, more: string)
    requires (forall i :: 0 <= i < |cs| ==> GoodChunk(cs[i])) && GoodLine(last, 0) && EndsTrailer(end)
    ensures var r := Run(Start(length), Encode(cs, last, end) + more);
            r.errno.None? && r.parser.state.Complete? && r.consumed == |Encode(cs, last, end)| && r.events == BodyEvents(cs)
  {
    hide Run;
    var p, chunks, line := Start(length), EncodeChunks(cs), EncodeLine(last);
    ChunksRun(length, cs);
    var p1 := Run(p, chunks).parser;
    LineRuns(p1.length, last, 0);
    var p2 := Parser(HeaderFieldStart, 0, 0);
    TrailerEnds(p2, end);
    RunSplit(p1, line, end);
    RunSplit(p, chunks, line + end);
    var r := Run(p, Encode(cs, last, end));
    assert r.events == ChunksEvents(cs) + ([ChunkHeader(0)] + [ChunkComplete, MessageComplete]);
    RunSplit(p, Encode(cs, last, end), more);
    CompleteStays(r.parser, more);
    assert r.events + [] == r.events;
  }

  lemma TrailerEnds(p: Parser, end: string)
    requires p.state.HeaderFieldStart? && p.nread + 2 <= MAX_HEADER_SIZE && EndsTrailer(end)
    ensures Run(p, end).errno.None? && Run(p, end).parser.state.Complete? && Run(p, end).consumed == |end|
    ensures Run(p, end).events == [ChunkComplete, MessageComplete]
  {
    if end == CRLF {
      assert CRLF == ['\r'] + ['\n'];
      RunOne(p, '\r');
      RunSplit(p, ['\r'], ['\n']);
      RunOne(Run(p, ['\r']).parser, '\n');
    } else {
      RunOne(p, '\n');
    }
  }

  lemma CompleteStays(p: Parser, s: string)
    requires p.state.Complete?
    ensures Run(p, s) == Outcome(p, [], 0, None)
  {
  }

  // ---------------------------------------------------------------- the body

  /** The body bytes among the events. */
  function Body(events: seq<Event>): string {
    if events == [] then []
    else Body(events[..|events| - 1]) + if events[|events| - 1].BodyByte? then [events[|events| - 1].ch] else []
  }

  function Joined(cs: seq<Chunk>): string {
    if cs == [] then [] else cs[0].data + Joined(cs[1..])
  }

  lemma {:induction false} BodyConcat(a: seq<Event>, b: seq<Event>)
    ensures Body(a + b) == Body(a) + Body(b)
    decreases |b|
  {
    if b == [] {
      assert a + b == a;
    } else {
      var init := b[..|b| - 1];
      BodyConcat(a, init);
      assert (a + b)[..|a + b| - 1] == a + init;
    }
  }

  lemma {:induction false} BodyOfBytes(s: string)
    ensures Body(Bytes(s)) == s
  {
    if s != [] {
      BodyOfBytes(s[1..]);
      BodyConcat([BodyByte(s[0])], Bytes(s[1..]));
      BodyOne(BodyByte(s[0]));
    }
  }

  lemma BodyOne(e: Event)
    ensures Body([e]) == if e.BodyByte? then [e.ch] else []
  {
    assert [e][..0] == [];
  }

  /** The body bytes told are the chunks' data, joined. */
  lemma {:induction false} BodyOfChunks(cs: seq<Chunk>)
    ensures Body(ChunksEvents(cs)) == Joined(cs)
    decreases |cs|
  {
    hide Body, ChunkEvents;
    if cs == [] {
      BodyOfNone();
    } else {
      BodyOfChunks(cs[1..]);
      BodyConcat(ChunkEvents(cs[0]), ChunksEvents(cs[1..]));
      BodyOfChunk(cs[0]);
    }
  }

  lemma BodyOfNone()
    ensures Body([]) == []
  {
  }

  lemma BodyOfChunk(c: Chunk)
    ensures Body(ChunkEvents(c)) == c.data
  {
    hide Body;
    BodyConcat([ChunkHeader(|c.data|)] + Bytes(c.data), [ChunkComplete]);
    BodyConcat([ChunkHeader(|c.data|)], Bytes(c.data));
    BodyOfBytes(c.data);
    BodyOne(ChunkHeader(|c.data|));
    BodyOne(ChunkComplete);
  }

  // ---------------------------------------------------------------- nothing else is accepted

  /** The run over `s` reaches the end of the message without an error. */
  ghost predicate Accepted(p: Parser, s: string) {
    Run(p, s).errno.None? && Run(p, s).parser.state.Complete?
  }

  /** An accepted run goes on with a byte that is no error, and is accepted from there. */
  lemma AcceptedStep(p: Parser, s: string)
    requires Accepted(p, s) && !p.state.Complete?
    ensures s != [] && StepByte(p, s[0]).Next? && Accepted(StepByte(p, s[0]).parser, s[1..])
  {
  }

  /** A carriage return is followed by a line feed. */
  lemma LineFeedFollows(p: Parser, s: string)
    requires Accepted(p, s) && (p.state.ChunkSizeAlmostDone? || p.state.ChunkDataDone? || p.state.HeadersAlmostDone?)
    ensures s != [] && s[0] == '\n'
    ensures ParsingHeader(p.state) ==> p.nread + 1 <= MAX_HEADER_SIZE
  {
    AcceptedStep(p, s);
  }

  lemma {:induction false} AcceptedExtension(p: Parser, s: string) returns (e: string, rest: string)
    requires Accepted(p, s) && p.state.ChunkParameters?
    ensures NoCr(e) && s == e + CRLF + rest && p.nread + |e| + 2 <= MAX_HEADER_SIZE
    decreases |s|
  {
    hide Run;
    AcceptedStep(p, s);
    var p' := StepByte(p, s[0]).parser;
    if s[0] == '\r' {
      LineFeedFollows(p', s[1..]);
      e, rest := [], s[2..];
      assert s == [] + CRLF + s[2..];
    } else {
      var e';
      e', rest := AcceptedExtension(p', s[1..]);
      e := [s[0]] + e';
      assert s == [s[0]] + s[1..];
    }
  }

  /** The rest of a chunk line whose digits so far are `ds`. */
  lemma {:induction false} AcceptedSize(p: Parser, ds: string, s: string) returns (l: Line, rest: string)
    requires Accepted(p, s) && p.state.ChunkSize? && AllDigits(ds) && ds != []
    requires HexValue(ds) == p.length && HexValue(ds[..|ds| - 1]) <= (ULLONG_MAX - 16) / 16 && p.nread == |ds|
    ensures AllDigits(l.digits) && GoodLine(l, HexValue(l.digits)) && ds + s == EncodeLine(l) + rest
    decreases |s|
  {
    hide Run, Unhex, SizeDigit, DigitWorth;
    AcceptedStep(p, s);
    var p' := StepByte(p, s[0]).parser;
    assert s == [s[0]] + s[1..];
    if s[0] == '\r' {
      LineFeedFollows(p', s[1..]);
      l, rest := Line(ds, []), s[2..];
      assert ds + s == ds + [] + CRLF + s[2..];
    } else if Unhex(s[0]) == -1 {
      var e;
      e, rest := AcceptedExtension(p', s[1..]);
      l := Line(ds, [s[0]] + e);
      assert ds + s == ds + ([s[0]] + e) + CRLF + rest;
    } else {
      assert (ds + [s[0]])[..|ds|] == ds;
      l, rest := AcceptedSize(p', ds + [s[0]], s[1..]);
      assert ds + s == (ds + [s[0]]) + s[1..];
    }
  }

  lemma AcceptedLine(length: nat, s: string) returns (l: Line, rest: string)
    requires Accepted(Start(length), s)
    ensures AllDigits(l.digits) && GoodLine(l, HexValue(l.digits)) && s == EncodeLine(l) + rest
  {
    hide Run;
    var p := Start(length);
    AcceptedStep(p, s);
    assert [s[0]][..0] == [];
    l, rest := AcceptedSize(StepByte(p, s[0]).parser, [s[0]], s[1..]);
    assert s == [s[0]] + s[1..];
  }

  /** What follows an accepted run's first part is accepted from where that ends. */
  lemma AcceptedRest(p: Parser, s: string, t: string)
    requires Accepted(p, s + t) && Run(p, s).errno.None?
    ensures Accepted(Run(p, s).parser, t)
  {
    RunSplit(p, s, t);
  }

  lemma AcceptedData(n: nat, s: string)
    requires n > 0 && Accepted(Parser(ChunkData, n, 0), s)
    ensures |s| >= n + 2 && s[n..n + 2] == CRLF && Accepted(Start(0), s[n + 2..])
  {
    hide Run;
    var p := Parser(ChunkData, n, 0);
    AcceptedStep(p, s);
    if |s| < n {
      RunData(p, s);
      assert false;
    }
    RunData(p, s[..n]);
    assert s == s[..n] + s[n..];
    AcceptedRest(p, s[..n], s[n..]);
    var q := Parser(ChunkDataAlmostDone, 0, 0);
    AcceptedStep(q, s[n..]);
    var q' := StepByte(q, s[n]).parser;
    assert s[n..][1..] == s[n + 1..];
    LineFeedFollows(q', s[n + 1..]);
    AcceptedStep(q', s[n + 1..]);
    assert s[n + 1..][1..] == s[n + 2..];
  }

  lemma AcceptedTrailer(s: string) returns (end: string, more: string)
    requires Accepted(Parser(HeaderFieldStart, 0, 0), s)
    ensures EndsTrailer(end) && s == end + more
  {
    hide Run;
    var p := Parser(HeaderFieldStart, 0, 0);
    AcceptedStep(p, s);
    if s[0] == '\n' {
      end, more := ['\n'], s[1..];
      assert s == ['\n'] + s[1..];
    } else {
      LineFeedFollows(StepByte(p, s[0]).parser, s[1..]);
      end, more := CRLF, s[2..];
    }
  }

  lemma NoChunks(l: Line, end: string, more: string)
    ensures EncodeLine(l) + (end + more) == Encode([], l, end) + more
  {
    assert EncodeLine(l) + (end + more) == [] + (EncodeLine(l) + end) + more;
  }

  lemma ChunkPrepended(s: string, c: Chunk, rest: string, cs: seq<Chunk>, last: Line, end: string, more: string)
    requires s == EncodeLine(c.line) + rest && |rest| >= |c.data| + 2
    requires rest[..|c.data|] == c.data && rest[|c.data|..|c.data| + 2] == CRLF
    requires rest[|c.data| + 2..] == Encode(cs, last, end) + more
    ensures s == Encode([c] + cs, last, end) + more
  {
    var n := |c.data|;
    assert rest == c.data + CRLF + rest[n + 2..];
    assert s == EncodeChunk(c) + rest[n + 2..];
    assert ([c] + cs)[1..] == cs;
    assert EncodeChunks([c] + cs) == EncodeChunk(c) + EncodeChunks(cs);
    assert EncodeChunk(c) + (EncodeChunks(cs) + (EncodeLine(last) + end) + more) ==
           EncodeChunk(c) + EncodeChunks(cs) + (EncodeLine(last) + end) + more;
  }

  /** Whatever the parser accepts is the encoding of some chunks, and those are what it tells. */
  lemma {:induction false} AcceptedIsEncoding(length: nat, s: string)
    returns (cs: seq<Chunk>, last: Line, end: string, more: string)
    requires Accepted(Start(length), s)
    ensures (forall i :: 0 <= i < |cs| ==> GoodChunk(cs[i])) && GoodLine(last, 0) && EndsTrailer(end)
    ensures s == Encode(cs, last, end) + more
    decreases |s|
  {
    hide Run, Encode, EncodeChunks, GoodLine, EncodeLine, HexValue;
    var l, rest := AcceptedLine(length, s);
    var n := HexValue(l.digits);
    LineRuns(length, l, n);
    AcceptedRest(Start(length), EncodeLine(l), rest);
    if n == 0 {
      end, more := AcceptedTrailer(rest);
      cs, last := [], l;
      NoChunks(l, end, more);
    } else {
      AcceptedData(n, rest);
      var c := Chunk(l, rest[..n]);
      var cs';
      cs', last, end, more := AcceptedIsEncoding(0, rest[n + 2..]);
      cs := [c] + cs';
      ChunkPrepended(s, c, rest, cs', last, end, more);
    }
  }

  /** The parser accepts exactly the encodings of lists of non-empty chunks. */
  lemma AcceptsExactlyEncodings(length: nat, s: string)
    ensures Accepted(Start(length), s) <==>
            exists cs: seq<Chunk>, last: Line, end: string, more: string :: IsEncoding(cs, last, end, more, s)
  {
    hide Run;
    if Accepted(Start(length), s) {
      var cs, last, end, more := AcceptedIsEncoding(length, s);
      assert IsEncoding(cs, last, end, more, s);
    }
    forall cs: seq<Chunk>, last: Line, end: string, more: string | IsEncoding(cs, last, end, more, s)
      ensures Accepted(Start(length), s)
    {
      DecodesEncoding(length, cs, last, end, more);
    }
  }

  ghost predicate IsEncoding(cs: seq<Chunk>, last: Line, end: string, more: string, s: string) {
    && (forall i :: 0 <= i < |cs| ==> GoodChunk(cs[i])) && GoodLine(last, 0) && EndsTrailer(end)
    && s == Encode(cs, last, end) + more
  }
}
