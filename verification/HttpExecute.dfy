/**
 The parser as it runs over a buffer: data bytes are skipped over in bulk and handed to the user as slices of
 the buffer, from a mark set at the first one. The states and the byte-by-byte meaning are those of `HttpBody`.
 */
module HttpExecute {
  import opened Options
  import opened HttpBody
  import opened HttpChunks

  datatype Callback = OnBody(bytes: string) | OnChunkHeader(length: nat) | OnChunkComplete | OnMessageComplete

  function Told(c: Callback): seq<Event> {
    match c
    case OnBody(bytes) => Bytes(bytes)
    case OnChunkHeader(length) => [ChunkHeader(length)]
    case OnChunkComplete => [ChunkComplete]
    case OnMessageComplete => [MessageComplete]
  }

  /** What a list of callbacks tells, with body slices taken apart. */
  function ToldAll(cs: seq<Callback>): seq<Event> {
    if cs == [] then [] else ToldAll(cs[..|cs| - 1]) + Told(cs[|cs| - 1])
  }

  lemma ToldOne(cs: seq<Callback>, c: Callback)
    ensures ToldAll(cs + [c]) == ToldAll(cs) + Told(c)
  {
    assert (cs + [c])[..|cs|] == cs;
  }

  lemma {:induction false} ToldConcat(a: seq<Callback>, b: seq<Callback>)
    ensures ToldAll(a + b) == ToldAll(a) + ToldAll(b)
    decreases |b|
  {
    hide Told;
    if b == [] {
      assert a + b == a;
    } else {
      ToldConcat(a, b[..|b| - 1]);
      assert (a + b)[..|a + b| - 1] == a + b[..|b| - 1];
    }
  }

  /** Body bytes behind the mark, not handed over yet. */
  function Marked(data: string, mark: Option<nat>, p: nat): string
    requires p <= |data|
  {
    if mark.Some? && mark.value <= p then data[mark.value..p] else []
  }

  /** The byte at `k` of this buffer is data. */
  ghost predicate DataAt(p0: Parser, data: string, k: int) {
    0 <= k < |data| && (Run(p0, data[..k]).parser.state.ChunkData? || Run(p0, data[..k]).parser.state.BodyIdentity?)
  }

  /** The bytes from `first` to `n` are a stretch of data, and the byte before them, if there is one, is not data. */
  ghost predicate Stretch(p0: Parser, data: string, first: nat, n: nat) {
    (forall k :: first <= k < n ==> DataAt(p0, data, k)) && !DataAt(p0, data, first - 1)
  }

  /**
   What an error at byte `n` keeps from the user: when the byte behind a chunk's data is wrong, all of that chunk's
   data that is in this buffer, and else nothing.
   */
  ghost predicate Withheld(p0: Parser, data: string, n: nat, first: nat) {
    && first <= n <= |data| && Stretch(p0, data, first, n)
    && (first < n <==> Run(p0, data).parser.state.ChunkDataAlmostDone? && n > 0)
  }

  /** The callbacks tell what a run over the bytes before `first` tells, and so not the data from there to the error. */
  ghost predicate FallsShort(p0: Parser, data: string, callbacks: seq<Callback>, first: nat) {
    var r := Run(p0, data);
    && Withheld(p0, data, r.consumed, first) && ToldAll(callbacks) == Run(p0, data[..first]).events
    && r.events == ToldAll(callbacks) + Bytes(data[first..r.consumed])
  }

  function Concat(pieces: seq<string>): string {
    if pieces == [] then [] else Concat(pieces[..|pieces| - 1]) + pieces[|pieces| - 1]
  }

  lemma FedOneMore(p0: Parser, pieces: seq<string>, i: nat)
    requires i < |pieces|
    ensures var a, b := Concat(pieces[..i]), Concat(pieces[..i + 1]);
            (Run(p0, a).errno.None? ==> Run(p0, b) == Then(Run(p0, a), Run(Run(p0, a).parser, pieces[i])))
  {
    assert pieces[..i + 1][..i] == pieces[..i];
    RunSplit(p0, Concat(pieces[..i]), pieces[i]);
  }

  lemma {:induction false} ConcatSplit(pieces: seq<string>, i: nat)
    requires i < |pieces|
    ensures Concat(pieces) == Concat(pieces[..i]) + Concat(pieces[i..])
    decreases |pieces|
  {
    var init := pieces[..|pieces| - 1];
    assert pieces[i..][..|pieces| - i - 1] == init[i..];
    if i < |init| {
      ConcatSplit(init, i);
      assert init[..i] == pieces[..i];
    } else {
      assert init[i..] == [];
    }
  }

  /** Everything before piece `i` was told, and of that piece what comes before `first`. */
  ghost predicate FeedFallsShort(p0: Parser, pieces: seq<string>, callbacks: seq<Callback>, i: nat, first: nat) {
    && i < |pieces|
    && var before := Run(p0, Concat(pieces[..i]));
       && before.errno.None? && Withheld(before.parser, pieces[i], Run(before.parser, pieces[i]).consumed, first)
       && ToldAll(callbacks) == before.events + Run(before.parser, pieces[i][..first]).events
  }

  class HttpParser {
    var state: State
    var contentLength: nat
    var nread: nat
    var errno: Option<Errno>

    function Now(): Parser
      reads this
    {
      Parser(state, contentLength, nread)
    }

    /** The parser behind the headers of a message in chunked coding. */
    constructor Chunked()
      ensures Now() == Start(0) && errno.None?
    {
      state, contentLength, nread, errno := ChunkSizeStart, 0, 0, None;
    }

    /** The parser behind the headers of a message with a content length. */
    constructor Identity(length: nat)
      requires 0 < length < ULLONG_MAX
      ensures Now() == Parser(BodyIdentity, length, 0) && errno.None?
    {
      state, contentLength, nread, errno := BodyIdentity, length, 0, None;
    }

    /** Count a header byte; false when there are too many. */
    method CountHeaderSize() returns (ok: bool)
      requires errno.None?
      modifies `nread, `errno
      ensures nread == old(nread) + if ParsingHeader(state) then 1 else 0
      ensures ok <==> !(ParsingHeader(state) && nread > MAX_HEADER_SIZE)
      ensures errno == if ok then None else Some(HeaderOverflow)
    {
      if ParsingHeader(state) {
        nread := nread + 1;
        if nread > MAX_HEADER_SIZE {
          errno := Some(HeaderOverflow);
          return false;
        }
      }
      ok := true;
    }

    /** One byte in a state where it is not data. */
    method NonData(ch: char) returns (ok: bool, told: seq<Callback>)
      requires errno.None? && !state.ChunkData? && !state.BodyIdentity? && !state.Complete?
      modifies this
      ensures ok ==> errno.None? && StepState(old(Now()), ch) == Next(Now(), ToldAll(told)) && !state.ChunkDataAlmostDone?
      ensures !ok ==> errno.Some? && StepState(old(Now()), ch) == Fail(errno.value) && told == []
    {
      ok, told := true, [];
      match state
      case ChunkSizeStart =>
        if Unhex(ch) == -1 {
          errno, ok := Some(InvalidChunkSize), false;
        } else {
          contentLength := Unhex(ch);
          state := ChunkSize;
        }
      case ChunkSize =>
        if ch == '\r' {
          state := ChunkSizeAlmostDone;
        } else if Unhex(ch) == -1 {
          if ch == ';' || ch == ' ' {
            state := ChunkParameters;
          } else {
            errno, ok := Some(InvalidChunkSize), false;
          }
        } else {
          var t := contentLength;
          t := t * 16;
          t := t + Unhex(ch);
          if (ULLONG_MAX - 16) / 16 < contentLength {
            errno, ok := Some(InvalidContentLength), false;
          } else {
            contentLength := t;
          }
        }
      case ChunkParameters =>
        if ch == '\r' {
          state := ChunkSizeAlmostDone;
        }
      case ChunkSizeAlmostDone =>
        if ch != '\n' {
          errno, ok := Some(Strict), false;
        } else {
          nread := 0;
          state := if contentLength == 0 then HeaderFieldStart else ChunkData;
          told := [OnChunkHeader(contentLength)];
        }
      case HeaderFieldStart =>
        if ch == '\r' {
          state := HeadersAlmostDone;
        } else if ch == '\n' {
          told := MessageEnds();
        } else {
          errno, ok := Some(TrailerField), false;
        }
      case HeadersAlmostDone =>
        if ch != '\n' {
          errno, ok := Some(Strict), false;
        } else {
          told := MessageEnds();
        }
      case ChunkDataAlmostDone =>
        if ch != '\r' {
          errno, ok := Some(Strict), false;
        } else {
          state := ChunkDataDone;
        }
      case ChunkDataDone =>
        if ch != '\n' {
          errno, ok := Some(Strict), false;
        } else {
          nread := 0;
          state := ChunkSizeStart;
          told := [OnChunkComplete];
        }
    }

    /** The end of a chunked message. */
    method MessageEnds() returns (told: seq<Callback>)
      modifies `state
      ensures state == Complete && ToldAll(told) == [ChunkComplete, MessageComplete]
    {
      state := Complete;
      told := [OnChunkComplete, OnMessageComplete];
      ToldOne([OnChunkComplete], OnMessageComplete);
    }

    /** Pass over as much data as there is, up to the length announced. */
    method SkipData(available: nat) returns (toRead: nat)
      requires Good(Now()) && (state.ChunkData? || state.BodyIdentity?) && available > 0
      modifies `contentLength, `state
      ensures 0 < toRead <= available && toRead <= old(contentLength) && contentLength == old(contentLength) - toRead
      ensures state == DataEnd(old(state), contentLength)
    {
      toRead := if contentLength < available then contentLength else available;
      contentLength := contentLength - toRead;
      if contentLength == 0 {
        state := if state.ChunkData? then ChunkDataAlmostDone else Complete;
      }
    }

    /**
     What the user has been told, and what is marked, is what a run from `p0` over the bytes before `p` tells.
     */
    ghost predicate Progress(p0: Parser, data: string, p: nat, mark: Option<nat>, callbacks: seq<Callback>)
      reads this
    {
      && p <= |data| && Good(Now()) && errno.None?
      && (mark.Some? ==> mark.value < p && (state.ChunkData? || state.ChunkDataAlmostDone? || state.BodyIdentity?))
      && (state.ChunkDataAlmostDone? && p > 0 ==> mark.Some?)
      && (mark.Some? ==> ToldAll(callbacks) == Run(p0, data[..mark.value]).events)
      && (!state.Complete? ==> Stretch(p0, data, if mark.Some? then mark.value else p, p))
      && Run(p0, data[..p]) == Outcome(Now(), ToldAll(callbacks) + Bytes(Marked(data, mark, p)), p, None)
    }

    /** A stretch of data, marked and passed over; a body of given length ends with it. */
    method DataBytes(ghost p0: Parser, data: string, p: nat, mark: Option<nat>, callbacks: seq<Callback>)
      returns (p': nat, mark': Option<nat>, callbacks': seq<Callback>)
      requires Progress(p0, data, p, mark, callbacks) && p < |data| && (state.ChunkData? || state.BodyIdentity?)
      modifies this
      ensures Progress(p0, data, p', mark', callbacks') && p < p'
    {
      hide Run, Bytes, ToldAll;
      ghost var before := Now();
      var first := if mark.Some? then mark.value else p;
      var toRead := SkipData(|data| - p);
      p', mark', callbacks' := p + toRead, Some(first), callbacks;
      ghost var s := data[p..p + toRead];
      RunData(before, s);
      assert data[..p'] == data[..p] + s;
      RunSplit(p0, data[..p], s);
      BytesConcat(Marked(data, mark, p), s);
      assert data[first..p'] == Marked(data, mark, p) + s;
      RunKeepsGood(before, s);
      forall k | p <= k < p' ensures DataAt(p0, data, k) {
        DataWithin(p0, data, p, k, before);
      }
      if state.Complete? {
        ToldOne(callbacks, OnBody(data[first..p']));
        ToldOne(callbacks + [OnBody(data[first..p'])], OnMessageComplete);
        callbacks' := callbacks + [OnBody(data[first..p'])] + [OnMessageComplete];
        mark' := None;
        NoBytes();
        EventsAgree(ToldAll(callbacks), Bytes(Marked(data, mark, p)), Bytes(s), [MessageComplete]);
      } else {
        EventsAgree(ToldAll(callbacks), Bytes(Marked(data, mark, p)), Bytes(s), []);
      }
    }

    /** The parser is within data all along a stretch of it. */
    lemma DataWithin(p0: Parser, data: string, p: nat, k: nat, before: Parser)
      requires p <= k < |data| && Run(p0, data[..p]).parser == before && Run(p0, data[..p]).errno.None?
      requires (before.state.ChunkData? || before.state.BodyIdentity?) && k - p < before.length
      ensures DataAt(p0, data, k)
    {
      hide Bytes;
      assert data[..k] == data[..p] + data[p..k];
      RunSplit(p0, data[..p], data[p..k]);
      if k > p {
        RunData(before, data[p..k]);
      } else {
        assert data[p..k] == [];
      }
    }

    lemma NoBytes()
      ensures Bytes([]) == []
    {
    }

    lemma EventsAgree(a: seq<Event>, b: seq<Event>, c: seq<Event>, d: seq<Event>)
      ensures a + b + (c + d) == a + (b + c) + d && a + (b + c) + [] == a + (b + c)
    {
    }

    /** A byte that is not data; whatever is marked is handed over first. */
    method OtherByte(ghost p0: Parser, data: string, p: nat, mark: Option<nat>, callbacks: seq<Callback>)
      returns (ok: bool, callbacks': seq<Callback>)
      requires Progress(p0, data, p, mark, callbacks) && p < |data|
      requires !state.ChunkData? && !state.BodyIdentity? && !state.Complete?
      modifies this
      ensures ok ==> Progress(p0, data, p + 1, None, callbacks')
      ensures !ok ==> callbacks' == callbacks && errno.Some? && StepByte(old(Now()), data[p]) == Fail(errno.value)
    {
      hide Run, Bytes, ToldAll, StepState;
      ghost var before, ch := Now(), data[p];
      callbacks' := callbacks;
      ok := CountHeaderSize();
      if !ok {
        return;
      }
      var told;
      ok, told := NonData(data[p]);
      if !ok {
        return;
      }
      RunOne(before, ch);
      assert data[..p + 1] == data[..p] + [ch];
      RunSplit(p0, data[..p], [ch]);
      StepKeepsGood(before, ch);
      ToldOne(callbacks, OnBody(Marked(data, mark, p)));
      NoBytes();
      if mark.Some? {
        callbacks' := callbacks + [OnBody(data[mark.value..p])];
      }
      EventsAgree(ToldAll(callbacks), Bytes(Marked(data, mark, p)), [], []);
      ToldConcat(callbacks', told);
      EventsAgree(ToldAll(callbacks' + told), [], [], []);
      callbacks' := callbacks' + told;
    }

    /**
     `http_parser_execute`, from behind the headers to the end of the message: the number of bytes taken, and
     the callbacks made. Without an error they tell just what the bytes one by one would; on an error they fall
     short by the data bytes still marked.
     */
    method Execute(data: string) returns (n: nat, callbacks: seq<Callback>)
      requires errno.None? ==> Good(Now())
      modifies this
      ensures errno.None? ==> Good(Now())
      ensures old(errno).Some? ==> n == 0 && callbacks == [] && Now() == old(Now()) && errno == old(errno)
      ensures old(errno).None? && data == [] ==>
        callbacks == [] && Now() == old(Now()) && n == (if state.Complete? then 0 else 1)
        && errno == if state.Complete? then None else Some(InvalidEofState)
      ensures old(errno).None? && data != [] ==> n <= |data| && Follows(old(Now()), data, n, callbacks)
    {
      hide Run, Bytes, ToldAll, StepByte, Good, Stretch;
      callbacks := [];
      if errno.Some? {
        return 0, [];
      }
      if |data| == 0 {
        if !state.Complete? {
          errno := Some(InvalidEofState);
          return 1, [];
        }
        return 0, [];
      }
      ghost var p0 := Now();
      var p: nat, mark: Option<nat> := 0, None;
      Begin(data);
      while p < |data| && !state.Complete?
        invariant Progress(p0, data, p, mark, callbacks)
        decreases |data| - p
      {
        if state.ChunkData? || state.BodyIdentity? {
          p, mark, callbacks := DataBytes(p0, data, p, mark, callbacks);
        } else {
          ghost var at := Now();
          var ok, callbacks' := OtherByte(p0, data, p, mark, callbacks);
          if !ok {
            FailedAt(p0, at, data, p, mark, callbacks, errno.value);
            return p, callbacks;
          }
          p, mark, callbacks := p + 1, None, callbacks';
        }
      }
      RunConsumes(p0, data);
      Finish(p0, data, p, mark, callbacks);
      if mark.Some? {
        callbacks := callbacks + [OnBody(data[mark.value..p])];
      }
      n := p;
    }

    /** The outcome of a run, as `Execute` reports it. */
    ghost predicate Follows(p0: Parser, data: string, n: nat, callbacks: seq<Callback>)
      reads this
    {
      var r := Run(p0, data);
      && n == r.consumed && errno == r.errno
      && (r.errno.None? ==> Now() == r.parser && ToldAll(callbacks) == r.events)
      && (r.errno.Some? ==> exists first: nat :: FallsShort(p0, data, callbacks, first))
    }

    lemma Begin(data: string)
      requires Good(Now()) && errno.None?
      ensures Progress(Now(), data, 0, None, [])
    {
      assert data[..0] == [];
    }

    lemma Finish(p0: Parser, data: string, p: nat, mark: Option<nat>, callbacks: seq<Callback>)
      requires Progress(p0, data, p, mark, callbacks) && (p == |data| || state.Complete?)
      ensures Good(Now()) && (mark.Some? ==> mark.value <= p)
      ensures mark.Some? ==> Follows(p0, data, p, callbacks + [OnBody(data[mark.value..p])])
      ensures mark.None? ==> Follows(p0, data, p, callbacks)
    {
      hide Run, Bytes, ToldAll;
      assert data == data[..p] + data[p..];
      RunSplit(p0, data[..p], data[p..]);
      if p == |data| {
        assert data[p..] == [];
        RunEmpty(Now());
      } else {
        CompleteStays(Now(), data[p..]);
      }
      NoBytes();
      ToldOne(callbacks, OnBody(Marked(data, mark, p)));
      EventsAgree(ToldAll(callbacks), Bytes(Marked(data, mark, p)), [], []);
    }

    /** On an error the bytes still marked are not handed over. */
    lemma FailedAt(p0: Parser, at: Parser, data: string, p: nat, mark: Option<nat>, callbacks: seq<Callback>, e: Errno)
      requires p < |data| && errno == Some(e) && StepByte(at, data[p]) == Fail(e) && !at.state.Complete?
      requires Run(p0, data[..p]) == Outcome(at, ToldAll(callbacks) + Bytes(Marked(data, mark, p)), p, None)
      requires mark.Some? <==> at.state.ChunkDataAlmostDone? && p > 0
      requires mark.Some? ==> mark.value < p
      requires Stretch(p0, data, if mark.Some? then mark.value else p, p)
      requires mark.Some? ==> ToldAll(callbacks) == Run(p0, data[..mark.value]).events
      ensures Follows(p0, data, p, callbacks)
    {
      hide Run, Bytes, ToldAll, StepByte, Stretch;
      var first := if mark.Some? then mark.value else p;
      assert data == data[..p] + data[p..];
      RunSplit(p0, data[..p], data[p..]);
      FailsAt(at, data[p..], e);
      EventsAgree(ToldAll(callbacks), Bytes(Marked(data, mark, p)), [], []);
      assert Marked(data, mark, p) == data[first..p];
      assert FallsShort(p0, data, callbacks, first);
    }

    /** An error right away. */
    lemma FailsAt(at: Parser, rest: string, e: Errno)
      requires rest != [] && !at.state.Complete? && StepByte(at, rest[0]) == Fail(e)
      ensures Run(at, rest) == Outcome(at, [], 0, Some(e))
    {
      hide StepByte;
    }

    /**
     The parser fed with one piece after another, up to the end of the message or an error. Only the piece in which
     the error is falls short.
     */
    method Feed(pieces: seq<string>) returns (callbacks: seq<Callback>)
      requires Good(Now()) && errno.None? && forall i :: 0 <= i < |pieces| ==> pieces[i] != []
      modifies this
      ensures var r := Run(old(Now()), Concat(pieces));
              errno == r.errno && (r.errno.None? ==> Now() == r.parser && ToldAll(callbacks) == r.events)
      ensures errno.Some? ==> exists i: nat, first: nat :: FeedFallsShort(old(Now()), pieces, callbacks, i, first)
    {
      hide Run, Bytes, ToldAll, StepByte, Good, Stretch, Concat, FeedFallsShort;
      callbacks := [];
      var i := 0;
      ghost var p0 := Now();
      FedNone(pieces);
      while i < |pieces| && errno.None?
        invariant 0 <= i <= |pieces| && (errno.None? ==> Good(Now()))
        invariant errno == Run(p0, Concat(pieces[..i])).errno
        invariant errno.None? ==> Now() == Run(p0, Concat(pieces[..i])).parser
        invariant errno.None? ==> ToldAll(callbacks) == Run(p0, Concat(pieces[..i])).events
        invariant errno.Some? ==> exists k: nat, first: nat :: FeedFallsShort(p0, pieces, callbacks, k, first)
        decreases |pieces| - i
      {
        var n, told := Execute(pieces[i]);
        FedOneMore(p0, pieces, i);
        ToldConcat(callbacks, told);
        FeedFailed(p0, pieces, i, callbacks, told);
        callbacks := callbacks + told;
        i := i + 1;
      }
      if i < |pieces| {
        ConcatSplit(pieces, i);
        RunSplit(p0, Concat(pieces[..i]), Concat(pieces[i..]));
      } else {
        assert pieces[..i] == pieces;
      }
    }

    lemma FeedFailed(p0: Parser, pieces: seq<string>, i: nat, callbacks: seq<Callback>, told: seq<Callback>)
      requires i < |pieces| && Run(p0, Concat(pieces[..i])).errno.None?
      requires ToldAll(callbacks) == Run(p0, Concat(pieces[..i])).events
      ensures (exists first: nat :: FallsShort(Run(p0, Concat(pieces[..i])).parser, pieces[i], told, first)) ==>
        exists k: nat, first: nat :: FeedFallsShort(p0, pieces, callbacks + told, k, first)
    {
      hide Run, Bytes, ToldAll, Stretch, Concat;
      if first: nat :| FallsShort(Run(p0, Concat(pieces[..i])).parser, pieces[i], told, first) {
        ToldConcat(callbacks, told);
        assert FeedFallsShort(p0, pieces, callbacks + told, i, first);
      }
    }

    lemma FedNone(pieces: seq<string>)
      ensures Concat(pieces[..0]) == [] && Run(Now(), []) == Outcome(Now(), [], 0, None) && ToldAll([]) == []
    {
    }
  }

  /**
   However the encoding of a list of chunks is cut into pieces, the body bytes handed to the user are the chunks'
   data joined, and the message completes once.
   */
  method FeedEncoding(pieces: seq<string>, ghost cs: seq<Chunk>, ghost last: Line, ghost end: string)
    returns (callbacks: seq<Callback>)
    requires forall i :: 0 <= i < |pieces| ==> pieces[i] != []
    requires (forall i :: 0 <= i < |cs| ==> GoodChunk(cs[i])) && GoodLine(last, 0) && EndsTrailer(end)
    requires Concat(pieces) == Encode(cs, last, end)
    ensures ToldAll(callbacks) == BodyEvents(cs) && Body(ToldAll(callbacks)) == Joined(cs)
  {
    hide Run, Bytes, ToldAll, GoodChunk, GoodLine, EndsTrailer;
    var parser := new HttpParser.Chunked();
    callbacks := parser.Feed(pieces);
    DecodesEncoding(0, cs, last, end, []);
    assert Encode(cs, last, end) + [] == Encode(cs, last, end);
    BodyOfChunks(cs);
    BodyConcat(ChunksEvents(cs), [ChunkHeader(0), ChunkComplete, MessageComplete]);
    NoBodyAtEnd();
  }

  lemma NoBodyAtEnd()
    ensures Body([ChunkHeader(0), ChunkComplete, MessageComplete]) == []
  {
    BodyOne(ChunkHeader(0));
    BodyOne(ChunkComplete);
    BodyOne(MessageComplete);
    BodyConcat([ChunkHeader(0)], [ChunkComplete]);
    BodyConcat([ChunkHeader(0)] + [ChunkComplete], [MessageComplete]);
  }

  /** What a chunk of one byte with a wrong byte behind it leads to, step by step. */
  lemma WrongByteBehindData()
    ensures Run(Start(0), "1\r").parser.state == ChunkSizeAlmostDone && Run(Start(0), "1\r").errno.None?
    ensures Run(Start(0), "1\r\n") == Outcome(Parser(ChunkData, 1, 0), [ChunkHeader(1)], 3, None)
    ensures Run(Start(0), "1\r\na") ==
            Outcome(Parser(ChunkDataAlmostDone, 0, 0), [ChunkHeader(1), BodyByte('a')], 4, None)
    ensures Run(Parser(ChunkDataAlmostDone, 0, 0), "X") == Outcome(Parser(ChunkDataAlmostDone, 0, 0), [], 0, Some(Strict))
  {
    hide Run, StepByte;
    var one, two, three := Parser(ChunkSize, 1, 1), Parser(ChunkSizeAlmostDone, 1, 2), Parser(ChunkData, 1, 0);
    RunEmpty(Start(0));
    ChunkSteps();
    WrongByte();
    Extended();
    OneThen("", '1', Outcome(Start(0), [], 0, None), one, []);
    OneThen("1", '\r', Outcome(one, [], 1, None), two, []);
    OneThen("1\r", '\n', Outcome(two, [], 2, None), three, [ChunkHeader(1)]);
    OneThen("1\r\n", 'a', Outcome(three, [ChunkHeader(1)], 3, None), Parser(ChunkDataAlmostDone, 0, 0), [BodyByte('a')]);
  }

  lemma Extended()
    ensures "" + ['1'] == "1" && "1" + ['\r'] == "1\r" && "1\r" + ['\n'] == "1\r\n" && "1\r\n" + ['a'] == "1\r\na"
  {
  }

  lemma ChunkSteps()
    ensures StepByte(Start(0), '1') == Next(Parser(ChunkSize, 1, 1), [])
    ensures StepByte(Parser(ChunkSize, 1, 1), '\r') == Next(Parser(ChunkSizeAlmostDone, 1, 2), [])
    ensures StepByte(Parser(ChunkSizeAlmostDone, 1, 2), '\n') == Next(Parser(ChunkData, 1, 0), [ChunkHeader(1)])
    ensures StepByte(Parser(ChunkData, 1, 0), 'a') == Next(Parser(ChunkDataAlmostDone, 0, 0), [BodyByte('a')])
  {
  }

  lemma WrongByte()
    ensures Run(Parser(ChunkDataAlmostDone, 0, 0), "X") == Outcome(Parser(ChunkDataAlmostDone, 0, 0), [], 0, Some(Strict))
  {
  }

  lemma OneThen(s: string, ch: char, r: Outcome, next: Parser, events: seq<Event>)
    requires Run(Start(0), s) == r && r.errno.None? && !r.parser.state.Complete? && StepByte(r.parser, ch) == Next(next, events)
    ensures Run(Start(0), s + [ch]) == Outcome(next, r.events + events, r.consumed + 1, None)
  {
    hide StepByte;
    RunSplit(Start(0), s, [ch]);
    RunOne(r.parser, ch);
  }

  /** The same bytes, whole and in two pieces: the same error, but only the second time is the data handed over. */
  method DeliveryDependsOnCut() returns (whole: seq<Callback>, cut: seq<Callback>)
    ensures ToldAll(whole) == [ChunkHeader(1)] && ToldAll(cut) == [ChunkHeader(1), BodyByte('a')]
  {
    hide Run, ToldAll, Bytes;
    WrongByteBehindData();
    RunSplit(Start(0), "1\r\na", "X");
    assert "1\r\naX" == "1\r\na" + "X";
    var parser := new HttpParser.Chunked();
    var n;
    n, whole := parser.Execute("1\r\naX");
    OnlyTheChunk("1\r\naX", whole);
    parser := new HttpParser.Chunked();
    n, cut := parser.Execute("1\r\na");
    var rest;
    n, rest := parser.Execute("X");
    NothingLost("X", rest);
    ToldConcat(cut, rest);
    cut := cut + rest;
  }

  lemma OnlyTheChunk(data: string, callbacks: seq<Callback>)
    requires data == "1\r\naX" && exists first: nat :: FallsShort(Start(0), data, callbacks, first)
    requires Run(Start(0), data).consumed == 4 && Run(Start(0), data).parser.state.ChunkDataAlmostDone?
    ensures ToldAll(callbacks) == [ChunkHeader(1)]
  {
    hide Run, ToldAll, Bytes;
    var first: nat :| FallsShort(Start(0), data, callbacks, first);
    WrongByteBehindData();
    assert data[..2] == "1\r" && data[..3] == "1\r\n";
    assert DataAt(Start(0), data, 3) && !DataAt(Start(0), data, 2);
    assert first == 3;
  }

  lemma NothingLost(data: string, callbacks: seq<Callback>)
    requires data == "X" && exists first: nat :: FallsShort(Parser(ChunkDataAlmostDone, 0, 0), data, callbacks, first)
    ensures ToldAll(callbacks) == []
  {
    hide ToldAll, Bytes;
    WrongByteBehindData();
    assert data[..0] == [];
  }
}
