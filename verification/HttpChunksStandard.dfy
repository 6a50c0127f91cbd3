/**
 How the parser's chunked coding relates to that of section 4.1 of RFC 7230, whose sizes have hexadecimal digits only:
 a stream is the encoding of one list of chunks at most, and it is by the standard just if no byte beyond ASCII is
 among the digits of its sizes.
 */
module HttpChunksStandard {
  import opened Options
  import opened HttpBody
  import opened HttpChars
  import opened HttpChunks

  /** All digits of the size are hexadecimal. */
  ghost predicate StandardLine(l: Line) {
    forall i :: 0 <= i < |l.digits| ==> Hexadecimal(l.digits[i])
  }

  ghost predicate Standard(cs: seq<Chunk>, last: Line) {
    (forall i :: 0 <= i < |cs| ==> StandardLine(cs[i].line)) && StandardLine(last)
  }

  predicate HighLine(l: Line) {
    exists i :: 0 <= i < |l.digits| && BeyondAscii(l.digits[i])
  }

  /** A byte beyond ASCII is among the digits of some size. */
  predicate SomeHigh(cs: seq<Chunk>, last: Line) {
    (exists i :: 0 <= i < |cs| && HighLine(cs[i].line)) || HighLine(last)
  }

  // ---------------------------------------------------------------- one reading only

  /** What ends the digits of a size is none itself. */
  lemma NoDigits(ch: char)
    requires ch == '\r' || ch == ';' || ch == ' '
    ensures !SizeDigit(ch)
  {
    HexadecimalsAre(ch);
  }

  /** The first byte that is not a digit of the size stands where the digits end. */
  lemma DigitsEnd(l: Line, n: nat, rest: string, k: nat)
    requires GoodLine(l, n) && k <= |l.digits|
    ensures |l.digits| < |EncodeLine(l) + rest|
    ensures SizeDigit((EncodeLine(l) + rest)[k]) <==> k < |l.digits|
  {
    hide SizeDigit, HexValue;
    var s := EncodeLine(l) + rest;
    assert s == l.digits + (l.extension + CRLF + rest);
    if k == |l.digits| {
      NoDigits(s[k]);
    } else {
      assert s[k] == l.digits[k];
    }
  }

  lemma LineUnique(l: Line, n: nat, r: string, l': Line, n': nat, r': string)
    requires GoodLine(l, n) && GoodLine(l', n') && EncodeLine(l) + r == EncodeLine(l') + r'
    ensures l == l' && n == n' && r == r'
  {
    hide HexValue, SizeDigit, EncodeLine;
    if |l.digits| < |l'.digits| {
      DigitsEnd(l, n, r, |l.digits|);
      DigitsEnd(l', n', r', |l.digits|);
    } else if |l'.digits| < |l.digits| {
      DigitsEnd(l, n, r, |l'.digits|);
      DigitsEnd(l', n', r', |l'.digits|);
    }
    SplitLine(l, r);
    SplitLine(l', r');
    var d := |l.digits|;
    var t := (EncodeLine(l) + r)[d..];
    assert t == l.extension + CRLF + r == l'.extension + CRLF + r';
    ExtensionUnique(l.extension, r, l'.extension, r');
    assert l.digits == (EncodeLine(l) + r)[..d] == l'.digits;
  }

  lemma SplitLine(l: Line, r: string)
    ensures |EncodeLine(l) + r| >= |l.digits|
    ensures (EncodeLine(l) + r)[..|l.digits|] == l.digits && (EncodeLine(l) + r)[|l.digits|..] == l.extension + CRLF + r
  {
    assert EncodeLine(l) + r == l.digits + (l.extension + CRLF + r);
  }

  lemma ExtensionUnique(e: string, r: string, e': string, r': string)
    requires NoCr(e) && NoCr(e') && e + CRLF + r == e' + CRLF + r'
    ensures e == e' && r == r'
  {
    assert (e + CRLF + r)[|e|] == '\r' && (e' + CRLF + r')[|e'|] == '\r';
    assert |e| == |e'|;
    assert e == (e + CRLF + r)[..|e|];
    assert e' == (e' + CRLF + r')[..|e'|];
    assert r == (e + CRLF + r)[|e| + 2..];
    assert r' == (e' + CRLF + r')[|e'| + 2..];
  }

  function FirstLine(cs: seq<Chunk>, last: Line): Line {
    if cs == [] then last else cs[0].line
  }

  function FirstSize(cs: seq<Chunk>): nat {
    if cs == [] then 0 else |cs[0].data|
  }

  /** What stands behind the first line of an encoding. */
  function BehindLine(cs: seq<Chunk>, last: Line, end: string, more: string): string {
    if cs == [] then end + more else cs[0].data + CRLF + (Encode(cs[1..], last, end) + more)
  }

  lemma FirstLineIs(cs: seq<Chunk>, last: Line, end: string, more: string, s: string)
    requires IsEncoding(cs, last, end, more, s)
    ensures GoodLine(FirstLine(cs, last), FirstSize(cs))
    ensures s == EncodeLine(FirstLine(cs, last)) + BehindLine(cs, last, end, more)
  {
    hide GoodLine, EncodeLine;
    var line := EncodeLine(FirstLine(cs, last));
    if cs == [] {
      assert s == line + (end + more);
    } else {
      assert GoodChunk(cs[0]);
      assert s == EncodeChunk(cs[0]) + EncodeChunks(cs[1..]) + (EncodeLine(last) + end) + more;
      assert s == line + (cs[0].data + CRLF + (EncodeChunks(cs[1..]) + (EncodeLine(last) + end) + more));
    }
  }

  lemma EndUnique(end: string, more: string, end': string, more': string)
    requires EndsTrailer(end) && EndsTrailer(end') && end + more == end' + more'
    ensures end == end' && more == more'
  {
    assert end == (end + more)[..|end|] && end' == (end' + more')[..|end'|];
    assert (end + more)[0] == end[0] && (end' + more')[0] == end'[0];
    assert more == (end + more)[|end|..] && more' == (end' + more')[|end'|..];
  }

  lemma DataUnique(d: string, t: string, d': string, t': string)
    requires |d| == |d'| && d + CRLF + t == d' + CRLF + t'
    ensures d == d' && t == t'
  {
    assert d == (d + CRLF + t)[..|d|] && d' == (d' + CRLF + t')[..|d'|];
    assert t == (d + CRLF + t)[|d| + 2..] && t' == (d' + CRLF + t')[|d'| + 2..];
  }

  lemma Tail(cs: seq<Chunk>, last: Line, end: string, more: string, s: string)
    requires IsEncoding(cs, last, end, more, s) && cs != []
    ensures IsEncoding(cs[1..], last, end, more, Encode(cs[1..], last, end) + more)
  {
  }

  /** A stream can be read as an encoding in one way only. */
  lemma {:induction false} EncodingUnique(cs: seq<Chunk>, last: Line, end: string, more: string,
                                          cs': seq<Chunk>, last': Line, end': string, more': string, s: string)
    requires IsEncoding(cs, last, end, more, s) && IsEncoding(cs', last', end', more', s)
    ensures cs == cs' && last == last' && end == end' && more == more'
    decreases |cs|
  {
    hide GoodLine, Encode, EncodeLine;
    FirstLineIs(cs, last, end, more, s);
    FirstLineIs(cs', last', end', more', s);
    LineUnique(FirstLine(cs, last), FirstSize(cs), BehindLine(cs, last, end, more),
               FirstLine(cs', last'), FirstSize(cs'), BehindLine(cs', last', end', more'));
    if cs == [] {
      assert cs' != [] ==> GoodChunk(cs'[0]);
      EndUnique(end, more, end', more');
    } else {
      assert GoodChunk(cs[0]);
      var t, t' := Encode(cs[1..], last, end) + more, Encode(cs'[1..], last', end') + more';
      DataUnique(cs[0].data, t, cs'[0].data, t');
      Tail(cs, last, end, more, s);
      Tail(cs', last', end', more', s);
      EncodingUnique(cs[1..], last, end, more, cs'[1..], last', end', more', t);
      assert cs == [cs[0]] + cs[1..] && cs' == [cs'[0]] + cs'[1..];
    }
  }

  // ---------------------------------------------------------------- by the standard

  /** A stream that begins with an encoding by the standard. */
  ghost predicate StandardStream(s: string) {
    exists cs: seq<Chunk>, last: Line, end: string, more: string :: IsEncoding(cs, last, end, more, s) && Standard(cs, last)
  }

  /** A stream whose encoding has a byte beyond ASCII among the digits of its sizes. */
  ghost predicate HighStream(s: string) {
    exists cs: seq<Chunk>, last: Line, end: string, more: string :: IsEncoding(cs, last, end, more, s) && SomeHigh(cs, last)
  }

  lemma LineStandard(l: Line, n: nat)
    requires GoodLine(l, n)
    ensures StandardLine(l) <==> !HighLine(l)
  {
    hide HexValue, Hexadecimal;
    forall i | 0 <= i < |l.digits| ensures Hexadecimal(l.digits[i]) <==> !BeyondAscii(l.digits[i]) {
      assert SizeDigit(l.digits[i]);
      HexadecimalsAre(l.digits[i]);
    }
  }

  lemma StandardOrHigh(cs: seq<Chunk>, last: Line, end: string, more: string, s: string)
    requires IsEncoding(cs, last, end, more, s)
    ensures Standard(cs, last) <==> !SomeHigh(cs, last)
  {
    hide GoodLine, StandardLine, HighLine, Encode;
    forall i | 0 <= i < |cs| ensures StandardLine(cs[i].line) <==> !HighLine(cs[i].line) {
      assert GoodChunk(cs[i]);
      LineStandard(cs[i].line, |cs[i].data|);
    }
    LineStandard(last, 0);
  }

  /** What the parser accepts is by the standard if and only if no byte beyond ASCII is among the digits of a size. */
  lemma StandardExactly(length: nat, s: string)
    requires Accepted(Start(length), s)
    ensures StandardStream(s) <==> !HighStream(s)
  {
    hide Accepted, IsEncoding, Standard, SomeHigh;
    var cs, last, end, more := AcceptedIsEncoding(length, s);
    assert IsEncoding(cs, last, end, more, s) by {
      EncodingIs(cs, last, end, more, s);
    }
    StandardOrHigh(cs, last, end, more, s);
    forall cs', last', end', more' | IsEncoding(cs', last', end', more', s) ensures cs' == cs && last' == last {
      EncodingUnique(cs, last, end, more, cs', last', end', more', s);
    }
  }

  lemma EncodingIs(cs: seq<Chunk>, last: Line, end: string, more: string, s: string)
    requires (forall i :: 0 <= i < |cs| ==> GoodChunk(cs[i])) && GoodLine(last, 0) && EndsTrailer(end)
    requires s == Encode(cs, last, end) + more
    ensures IsEncoding(cs, last, end, more, s)
  {
  }

  /** A last chunk whose size is one byte beyond ASCII: accepted, though it has no hexadecimal digit at all. */
  lemma HighByteAccepted(ch: char)
    requires BeyondAscii(ch)
    ensures Accepted(Start(0), [ch] + CRLF + CRLF) && !StandardStream([ch] + CRLF + CRLF)
  {
    hide Run, IsEncoding, HexValue;
    var s, last := [ch] + CRLF + CRLF, Line([ch], []);
    assert [ch][..0] == [] && HexValue([]) == 0 && HexValue([ch]) == 0 by {
      HighIsNought(ch);
    }
    assert s == Encode([], last, CRLF) + [] by {
      assert [ch] + [] + CRLF == [ch] + CRLF;
    }
    EncodingIs([], last, CRLF, [], s);
    AcceptsExactlyEncodings(0, s);
    assert HighLine(last) by {
      assert BeyondAscii(last.digits[0]);
    }
    StandardExactly(0, s);
  }

  lemma HighIsNought(ch: char)
    requires BeyondAscii(ch)
    ensures [ch][..0] == [] && HexValue([]) == 0 && AllDigits([ch]) && HexValue([ch]) == 0
  {
  }
}
