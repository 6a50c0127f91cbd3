/**
 What keeping offsets and lengths in sixteen bits does to a URL: exactly when the components come out right, and
 what is accepted otherwise.
 */
module HttpUrlWidth {
  import opened Options
  import opened HttpLength
  import opened HttpUrl
  import opened HttpUrlText
  import opened HttpUrlExact

  /** Every component's offset and length fits sixteen bits. */
  ghost predicate AllFit(fields: Fields) {
    forall i :: 0 <= i < |fields| && fields[i].Some? ==> fields[i].value.off <= 0xffff && fields[i].value.len <= 0xffff
  }

  /** And so does the length of the server part as a whole. */
  ghost predicate ServerFits(u: Url, s: Seams) {
    |u.fields| == FIELDS && (u.fields[HOST].Some? ==> s.serverEnd <= s.server + 0xffff)
  }

  lemma FitExactly(fields: Fields)
    ensures WrapFields(fields) == fields <==> AllFit(fields)
    ensures AllFit(WrapFields(fields))
  {
    forall i | 0 <= i < |fields| ensures Wrapped(fields[i]) == fields[i] <==>
      (fields[i].Some? ==> fields[i].value.off <= 0xffff && fields[i].value.len <= 0xffff)
    {
    }
    if WrapFields(fields) == fields {
      forall i | 0 <= i < |fields| ensures Wrapped(fields[i]) == fields[i] {
        assert WrapFields(fields)[i] == fields[i];
      }
    }
  }

  /** What the splitter finds always fits. */
  lemma FoundFits(buf: string, isConnect: bool)
    requires SplitUrl(Sixteen, buf, isConnect).Some?
    ensures AllFit(SplitUrl(Sixteen, buf, isConnect).value.fields)
  {
    hide ScanTo, HostTo, PortTo, AllFit, WrapFields;
    var sc := ScanTo(Sixteen, buf, isConnect, |buf|);
    ScanBounds(Sixteen, buf, isConnect);
    FitExactly(sc.fields);
    if sc.fields[HOST].Some? {
      HostBounds(Sixteen, buf, sc);
      SplitWraps(buf, sc);
      FitExactly(SplitHost(Unbounded, buf, sc).value);
    }
  }

  /** On the same bytes the second pass differs only in how it keeps the pieces. */
  lemma SplitWraps(buf: string, sc: Scan)
    requires |sc.fields| == FIELDS && Has(sc.fields, HOST) && End(sc.fields[HOST].value) <= |buf|
    requires WrapFields(sc.fields) == sc.fields
    ensures SplitHost(Sixteen, buf, sc).Some? <==> SplitHost(Unbounded, buf, sc).Some?
    ensures SplitHost(Sixteen, buf, sc).Some? ==>
              SplitHost(Sixteen, buf, sc).value == WrapFields(SplitHost(Unbounded, buf, sc).value)
  {
    hide HostTo;
    var r := sc.fields[HOST].value;
    var begin := HostBegin(sc.fields, sc.foundAt);
    HostWraps(buf, begin, r.off, End(r));
    FitSmall(0);
    assert WrapHost(begin) == begin by {
      assert begin.fields == WrapFields(begin.fields);
    }
  }

  /** The components as they are known when the second pass has been over the right bytes. */
  lemma RightIfFits(buf: string, isConnect: bool, u: Url, s: Seams)
    requires UrlText(buf, isConnect, u, s) && AllFit(u.fields) && ServerFits(u, s)
    ensures SplitUrl(Sixteen, buf, isConnect) == Some(u)
  {
    hide ScanTo, SplitHost, BackText, PortTo, HostText, UserinfoText, PathText, WrapFields, PortText, ServerAt;
    Complete(Unbounded, buf, isConnect, u, s);
    var sc := ScanTo(Unbounded, buf, isConnect, |buf|);
    TextScanned(Unbounded, buf, isConnect, u.fields, s);
    ScanWraps(buf, isConnect, |buf|);
    ScanBounds(Unbounded, buf, isConnect);
    ServerBegins(buf, u, s, isConnect);
    assert AllFit(sc.fields);
    FitExactly(sc.fields);
    ScanBounds(Sixteen, buf, isConnect);
    if u.fields[HOST].Some? {
      HostBounds(Unbounded, buf, sc);
      HostBounds(Sixteen, buf, sc);
      SplitWraps(buf, sc);
      FitExactly(u.fields);
      ServerSplit(Unbounded, buf, isConnect, u.fields, s, sc);
    }
  }

  /** The server part begins no later than the host. */
  lemma ServerBegins(buf: string, u: Url, s: Seams, isConnect: bool)
    requires |u.fields| == FIELDS && u.fields[HOST].Some? ==> FrontText(buf, isConnect, u.fields, s)
    ensures |u.fields| == FIELDS && u.fields[HOST].Some? ==>
              s.server <= u.fields[HOST].value.off && s.server <= s.serverEnd
              && (if u.fields[PORT].Some? then End(u.fields[PORT].value) == s.serverEnd
                  else s.serverEnd <= End(u.fields[HOST].value) + 1)
  {
    hide V6Text, Run, ServerAt;
  }

  /** Over wrapped bytes, all pieces end by the wrapped end of the server part. */
  lemma PiecesEnd(buf: string, sc: Scan)
    requires |sc.fields| == FIELDS && Has(sc.fields, HOST) && End(sc.fields[HOST].value) <= |buf|
    requires sc.fields[USERINFO].None? && sc.fields[PORT].None? && WrapFields(sc.fields) == sc.fields
    requires SplitHost(Sixteen, buf, sc).Some?
    ensures var f, end := SplitHost(Sixteen, buf, sc).value, End(sc.fields[HOST].value);
            |f| == FIELDS && (f[HOST].Some? ==> End(f[HOST].value) <= end) && (f[PORT].Some? ==> End(f[PORT].value) <= end)
  {
    hide HostTo;
    var r := sc.fields[HOST].value;
    SplitWraps(buf, sc);
    HostToScanned(Unbounded, buf, sc.fields, sc.foundAt, r.off, End(r));
  }

  /**
   A URL's components come out right if and only if each offset and length fits sixteen bits, and so does the length of
   the server part.
   */
  lemma RightExactly(buf: string, isConnect: bool, u: Url, s: Seams)
    requires UrlText(buf, isConnect, u, s)
    ensures SplitUrl(Sixteen, buf, isConnect) == Some(u) <==> AllFit(u.fields) && ServerFits(u, s)
  {
    hide UrlText, SplitUrl, AllFit, ServerFits;
    if AllFit(u.fields) && ServerFits(u, s) {
      RightIfFits(buf, isConnect, u, s);
    }
    if SplitUrl(Sixteen, buf, isConnect) == Some(u) {
      FoundFits(buf, isConnect);
      RightServerFits(buf, isConnect, u, s);
    }
  }

  lemma RightServerFits(buf: string, isConnect: bool, u: Url, s: Seams)
    requires UrlText(buf, isConnect, u, s) && SplitUrl(Sixteen, buf, isConnect) == Some(u) && AllFit(u.fields)
    ensures ServerFits(u, s)
  {
    hide ScanTo, SplitHost, BackText, PortTo, HostText, UserinfoText, PathText, WrapFields, PortText, ServerAt;
    if u.fields[HOST].Some? {
      TextScanned(Unbounded, buf, isConnect, u.fields, s);
      ScanWraps(buf, isConnect, |buf|);
      ScanBounds(Sixteen, buf, isConnect);
      ServerBegins(buf, u, s, isConnect);
      var sc := ScanTo(Sixteen, buf, isConnect, |buf|);
      ServerRange(ScanTo(Unbounded, buf, isConnect, |buf|), s);
      HostBounds(Sixteen, buf, sc);
      PiecesEnd(buf, sc);
    }
  }

  lemma ServerRange(sc: Scan, s: Seams)
    requires |sc.fields| == FIELDS && s.server <= s.serverEnd
    requires sc.fields[HOST] == Some(Range(s.server, s.serverEnd - s.server))
    ensures var r := WrapFields(sc.fields)[HOST];
            r.Some? && (s.server <= 0xffff && s.serverEnd > s.server + 0xffff ==> End(r.value) + 0xffff < s.serverEnd)
  {
  }

  // ---------------------------------------------------------------- what is accepted otherwise

  /** Without a server part a URL of any length is accepted, with each range modulo 65536. */
  lemma NoServerWraps(buf: string, u: Url, s: Seams)
    requires UrlText(buf, false, u, s) && u.fields[HOST].None?
    ensures SplitUrl(Sixteen, buf, false) == Some(Url(WrapFields(u.fields), 0))
  {
    hide ScanTo, BackText, PathText;
    TextScanned(Unbounded, buf, false, u.fields, s);
    ScanWraps(buf, false, |buf|);
    ScanBounds(Sixteen, buf, false);
  }

  /** A slash and any number of letters is a path. */
  lemma PathIsUrl(buf: string) returns (u: Url, s: Seams)
    requires buf != [] && buf[0] == '/' && forall i :: 1 <= i < |buf| ==> buf[i] == 'a'
    ensures UrlText(buf, false, u, s) && u == Url(NoFields()[PATH := Some(Range(0, |buf|))], 0)
  {
    u := Url(NoFields()[PATH := Some(Range(0, |buf|))], 0);
    s := Seams(0, 0, 0, 0, |buf|, |buf|);
    assert Run(buf, PathChars, 0, |buf|);
  }

  /** So with 65535 letters the whole splitter reports a path of length nought. */
  lemma LongPathAccepted(buf: string)
    requires |buf| == 0x1_0000 && buf[0] == '/' && forall i :: 1 <= i < |buf| ==> buf[i] == 'a'
    ensures SplitUrl(Sixteen, buf, false) == Some(Url(NoFields()[PATH := Some(Range(0, 0))], 0))
    ensures SplitUrl(Unbounded, buf, false) == Some(Url(NoFields()[PATH := Some(Range(0, 0x1_0000))], 0))
  {
    hide UrlText, SplitUrl;
    var u, s := PathIsUrl(buf);
    NoServer(u);
    NoServerWraps(buf, u, s);
    Complete(Unbounded, buf, false, u, s);
    assert WrapFields(u.fields) == NoFields()[PATH := Some(Range(0, 0))];
  }

  lemma NoServer(u: Url)
    requires |u.fields| == FIELDS && u.fields == NoFields()[PATH := u.fields[PATH]]
    ensures u.fields[HOST].None?
  {
  }

  /** A host of one letter with 65536 closing brackets behind it, which no host may have. */
  ghost predicate BracketsBehindHost(buf: string) {
    |buf| == 8 + 0x1_0000 && buf[..8] == "http://a" && forall i :: 8 <= i < |buf| ==> buf[i] == ']'
  }

  /** It is no URL, but the splitter accepts it, and reports just the letter. */
  lemma NotUrlAccepted(buf: string)
    requires BracketsBehindHost(buf)
    ensures SplitUrl(Unbounded, buf, false).None?
    ensures SplitUrl(Sixteen, buf, false) == Some(Url(NoFields()[SCHEMA := Some(Range(0, 4))][HOST := Some(Range(7, 1))], 0))
  {
    hide ScanTo, HostTo, WrapFields;
    BracketsScanned(buf);
    ScanWraps(buf, false, |buf|);
    ScanBounds(Unbounded, buf, false);
    ScanBounds(Sixteen, buf, false);
    var sc := ScanTo(Unbounded, buf, false, |buf|);
    BracketsRefused(buf, sc);
    OneLetterHost(buf, ScanTo(Sixteen, buf, false, |buf|));
  }

  lemma BracketsScanned(buf: string)
    requires BracketsBehindHost(buf)
    ensures ScanTo(Unbounded, buf, false, |buf|) ==
            Scan(Server, NoFields()[SCHEMA := Some(Range(0, 4))][HOST := Some(Range(7, 1 + 0x1_0000))], Some(HOST), false)
    ensures WrapFields(NoFields()[SCHEMA := Some(Range(0, 4))][HOST := Some(Range(7, 1 + 0x1_0000))]) ==
            NoFields()[SCHEMA := Some(Range(0, 4))][HOST := Some(Range(7, 1))]
  {
    hide ScanTo;
    var schema := Some(Range(0, 4));
    assert forall i :: 0 <= i < 8 ==> buf[i] == buf[..8][i];
    assert SchemaText(buf, schema, 7);
    SchemaRead(Unbounded, buf, schema, 7);
    assert Plain(buf, 7, |buf|);
    ServerRead(Unbounded, buf, false, 7, 7, |buf|);
  }

  lemma BracketsRefused(buf: string, sc: Scan)
    requires BracketsBehindHost(buf) && |sc.fields| == FIELDS && sc.fields[HOST] == Some(Range(7, 1 + 0x1_0000)) && !sc.foundAt
    ensures SplitHost(Unbounded, buf, sc).None?
  {
    hide HostTouch;
    var begin := HostBegin(sc.fields, false);
    assert buf[7] == buf[..8][7];
    OneHostByte(Unbounded, buf, begin, 7, 7);
    OneHostByte(Unbounded, buf, begin, 7, 8);
    HostDeadForGood(Unbounded, buf, begin, 7, 9, |buf|);
  }

  lemma OneLetterHost(buf: string, sc: Scan)
    requires BracketsBehindHost(buf) && |sc.fields| == FIELDS && sc.fields[HOST] == Some(Range(7, 1)) && !sc.foundAt
    ensures SplitHost(Sixteen, buf, sc) == Some(sc.fields)
  {
    var begin := HostBegin(sc.fields, false);
    assert buf[7] == buf[..8][7];
    assert ParseHostChar(HostStart, 'a') == HostName && Fit(Sixteen, 7) == 7 && Fit(Sixteen, 0 + 1) == 1;
    OneHostByte(Sixteen, buf, begin, 7, 7);
    assert HostTo(Sixteen, buf, begin, 7, 7) == begin;
    assert sc.fields == begin.fields[HOST := Some(Range(7, 1))];
  }
}
