/** The splitter accepts exactly the texts of the grammar, each with exactly its components. */
module HttpUrlExact {
  import opened Options
  import opened HttpChars
  import opened HttpLength
  import opened HttpUrl
  import opened HttpUrlText
  import opened HttpUrlServer

  // ---------------------------------------------------------------- what is accepted is such a text

  /** The pieces of the server part, once its state may end there. */
  lemma HostEnds(buf: string, base: Fields, h: HostScan, lo: nat, hi: nat) returns (host: nat, hostEnd: nat)
    requires HostScanned(buf, base, h, lo, hi) && HostPassed(buf, h, lo, hi) && HostMayEnd(h.state)
    ensures UserinfoText(buf, h.fields[USERINFO], lo, host) && HostText(buf, h.fields[HOST], host, hostEnd)
    ensures PortText(buf, h.fields[PORT], hostEnd, hi)
  {
    hide Decimal, V6Text, Run, UserinfoText;
    hostEnd := if h.state.PortDigits? then h.fields[PORT].value.off - 1 else hi;
    var r := h.fields[HOST].value;
    host := if End(r) == hostEnd then r.off else r.off - 1;
  }

  /** The server part is taken to pieces as the grammar does. */
  lemma SplitHostText(w: Width, buf: string, isConnect: bool, sc: Scan, s: Seams) returns (s': Seams)
    requires Ample(w, |buf|) && Scanned(sc, |buf|) && BackText(buf, sc.fields, s) && Has(sc.fields, HOST)
    requires RawServer(buf, isConnect, sc.fields[SCHEMA], sc.fields[HOST], s.serverEnd) && SplitHost(w, buf, sc).Some?
    ensures |SplitHost(w, buf, sc).value| == FIELDS
    ensures FrontText(buf, isConnect, SplitHost(w, buf, sc).value, s') && BackText(buf, SplitHost(w, buf, sc).value, s')
  {
    hide HostTo, Run, UserinfoText, HostText, PortText, PathText, QueryText, FragmentText, ServerAt, InOrder, EndsAt, HostPassed;
    var r := sc.fields[HOST].value;
    SplitHostInOrder(w, buf, sc);
    HostToScanned(w, buf, sc.fields, sc.foundAt, r.off, End(r));
    HostToPassed(w, buf, sc.fields, sc.foundAt, r.off, End(r));
    var h := HostTo(w, buf, HostBegin(sc.fields, sc.foundAt), r.off, End(r));
    var host, hostEnd := HostEnds(buf, sc.fields, h, r.off, End(r));
    s' := s.(server := r.off, host := host, hostEnd := hostEnd);
  }

  lemma Sound(w: Width, buf: string, isConnect: bool) returns (s: Seams)
    requires Ample(w, |buf|) && SplitUrl(w, buf, isConnect).Some?
    ensures UrlText(buf, isConnect, SplitUrl(w, buf, isConnect).value, s)
  {
    hide ScanTo, SplitHost, PortTo, InOrder, PortPlaced, FrontText, BackText, Passed, RawServer, PortMatches;
    var sc := ScanTo(w, buf, isConnect, |buf|);
    ScanInOrder(w, buf, isConnect, |buf|);
    ScanPassed(w, buf, isConnect, |buf|);
    var fields := SplitUrl(w, buf, isConnect).value.fields;
    if sc.fields[HOST].Some? {
      s := PassedAll(buf, isConnect, sc);
      SplitHostInOrder(w, buf, sc);
      s := SplitHostText(w, buf, isConnect, sc, s);
      if Has(fields, PORT) {
        PortDecimal(buf, fields);
      }
    } else {
      s := PassedAll(buf, isConnect, sc);
      NoFront(buf, isConnect, sc, s);
    }
  }

  lemma NoFront(buf: string, isConnect: bool, sc: Scan, s: Seams)
    requires |sc.fields| == FIELDS && sc.fields[HOST].None? && sc.fields[SCHEMA].None? && !isConnect
    requires sc.fields[USERINFO].None? && sc.fields[PORT].None? && sc.fields[PATH].Some? && s.serverEnd == 0
    ensures FrontText(buf, isConnect, sc.fields, s)
  {
  }

  // ---------------------------------------------------------------- such a text is accepted: the first pass

  lemma TouchGrows(w: Width, sc: Scan, s: UrlState, p: nat, o: nat)
    requires o < p && Ample(w, p + 1) && |sc.fields| == FIELDS && FieldOf(s).Some? && sc.last == FieldOf(s)
    requires sc.fields[FieldOf(s).value] == Some(Range(o, p - o))
    ensures Touch(w, sc, s, p) ==
            Scan(s, sc.fields[FieldOf(s).value := Some(Range(o, p + 1 - o))], sc.last, sc.foundAt || s.ServerWithAt?)
  {
  }

  lemma TouchBegins(w: Width, sc: Scan, s: UrlState, p: nat)
    requires Ample(w, p + 1) && |sc.fields| == FIELDS && FieldOf(s).Some? && sc.last != FieldOf(s)
    ensures Touch(w, sc, s, p) ==
            Scan(s, sc.fields[FieldOf(s).value := Some(Range(p, 1))], FieldOf(s), sc.foundAt || s.ServerWithAt?)
  {
  }

  lemma OneByte(w: Width, buf: string, isConnect: bool, p: nat)
    requires p < |buf|
    ensures var sc := ScanTo(w, buf, isConnect, p);
            ScanTo(w, buf, isConnect, p + 1) == Touch(w, sc, ParseUrlChar(sc.state, buf[p]), p)
  {
  }

  lemma UpdateTwice(f: Fields, i: nat, x: Option<Range>, y: Option<Range>)
    requires i < |f|
    ensures f[i := x][i := y] == f[i := y]
  {
  }

  /** `q` is as far as the component `f` that began at `o`; the scan was `sc` as it began. */
  ghost predicate Reached(sc: Scan, sc': Scan, s: UrlState, o: nat, q: nat)
    requires |sc.fields| == FIELDS && FieldOf(s).Some? && o <= q
  {
    sc' == Scan(s, sc.fields[FieldOf(s).value := Some(Range(o, q - o))], FieldOf(s), sc.foundAt)
  }

  /** Further bytes of the component that began at `o`. */
  lemma {:induction false} GoesOn(w: Width, buf: string, isConnect: bool, sc: Scan, o: nat, a: nat, q: nat, s: UrlState)
    requires o < a <= q <= |buf| && Ample(w, |buf|) && FieldOf(s).Some? && !s.ServerWithAt? && |sc.fields| == FIELDS
    requires Reached(sc, ScanTo(w, buf, isConnect, a), s, o, a)
    requires forall i :: a <= i < q ==> ParseUrlChar(s, buf[i]) == s
    ensures Reached(sc, ScanTo(w, buf, isConnect, q), s, o, q)
    decreases q
  {
    hide ParseUrlChar, Touch, ScanTo;
    if a < q {
      GoesOn(w, buf, isConnect, sc, o, a, q - 1, s);
      OneByte(w, buf, isConnect, q - 1);
      TouchGrows(w, ScanTo(w, buf, isConnect, q - 1), s, q - 1, o);
      UpdateTwice(sc.fields, FieldOf(s).value, Some(Range(o, q - 1 - o)), Some(Range(o, q - o)));
    }
  }

  /** A component from `o` to `q`. */
  lemma Component(w: Width, buf: string, isConnect: bool, o: nat, q: nat, s: UrlState)
    requires o < q <= |buf| && Ample(w, |buf|) && FieldOf(s).Some? && !s.ServerWithAt?
    requires ScanTo(w, buf, isConnect, o).last != FieldOf(s) && ParseUrlChar(ScanTo(w, buf, isConnect, o).state, buf[o]) == s
    requires forall i :: o < i < q ==> ParseUrlChar(s, buf[i]) == s
    ensures Reached(ScanTo(w, buf, isConnect, o), ScanTo(w, buf, isConnect, q), s, o, q)
  {
    hide ParseUrlChar, Touch, ScanTo;
    var sc := ScanTo(w, buf, isConnect, o);
    OneByte(w, buf, isConnect, o);
    TouchBegins(w, sc, s, o);
    GoesOn(w, buf, isConnect, sc, o, o + 1, q, s);
  }

  lemma Delimiter(w: Width, buf: string, isConnect: bool, p: nat, s: UrlState)
    requires p < |buf| && FieldOf(s).None? && ParseUrlChar(ScanTo(w, buf, isConnect, p).state, buf[p]) == s
    ensures ScanTo(w, buf, isConnect, p + 1) == ScanTo(w, buf, isConnect, p).(state := s)
  {
  }

  lemma SchemaRead(w: Width, buf: string, schema: Option<Range>, server: nat)
    requires SchemaText(buf, schema, server) && Ample(w, |buf|)
    ensures server <= |buf|
    ensures ScanTo(w, buf, false, server) == Scan(ServerStart, NoFields()[SCHEMA := schema], Some(SCHEMA), false)
  {
    hide ScanTo;
    var n := schema.value.len;
    assert ScanTo(w, buf, false, 0) == ScanStart(false) by { Start(w, buf, false); }
    assert forall i :: 0 <= i < n ==> Fits(Letters, buf[i]);
    Component(w, buf, false, 0, n, Schema);
    Delimiter(w, buf, false, n, SchemaSlash);
    Delimiter(w, buf, false, n + 1, SchemaSlashSlash);
    Delimiter(w, buf, false, n + 2, ServerStart);
  }

  lemma Start(w: Width, buf: string, isConnect: bool)
    ensures ScanTo(w, buf, isConnect, 0) == ScanStart(isConnect)
  {
  }

  /** Characters that keep the first pass in the server part, other than `@`. */
  ghost predicate IsPlain(ch: char) {
    UserinfoChar(ch) || ch == '[' || ch == ']'
  }

  ghost predicate Plain(buf: string, lo: nat, hi: nat) {
    lo <= hi <= |buf| && forall i :: lo <= i < hi ==> IsPlain(buf[i])
  }

  lemma PlainStays(ch: char)
    requires IsPlain(ch)
    ensures ParseUrlChar(ServerStart, ch) == Server && ParseUrlChar(Server, ch) == Server && ParseUrlChar(ServerWithAt, ch) == Server
  {
  }

  /** The server part, with or without a `@` at `host - 1`. */
  lemma ServerRead(w: Width, buf: string, isConnect: bool, lo: nat, host: nat, hi: nat)
    requires lo <= host < hi <= |buf| && Ample(w, |buf|) && Plain(buf, host, hi)
    requires lo < host ==> Plain(buf, lo, host - 1) && buf[host - 1] == '@'
    requires var sc := ScanTo(w, buf, isConnect, lo); sc.state.ServerStart? && sc.last != Some(HOST) && !sc.foundAt
    ensures Reached(ScanTo(w, buf, isConnect, lo).(foundAt := lo < host), ScanTo(w, buf, isConnect, hi), Server, lo, hi)
  {
    hide ScanTo, ParseUrlChar, IsPlain;
    forall ch | IsPlain(ch)
      ensures ParseUrlChar(ServerStart, ch) == Server && ParseUrlChar(Server, ch) == Server && ParseUrlChar(ServerWithAt, ch) == Server
    {
      PlainStays(ch);
    }
    if lo == host {
      Component(w, buf, isConnect, lo, hi, Server);
    } else {
      AtRead(w, buf, isConnect, lo, host);
      BehindAt(w, buf, isConnect, lo, host);
      GoesOn(w, buf, isConnect, ScanTo(w, buf, isConnect, lo).(foundAt := true), lo, host + 1, hi, Server);
    }
  }

  lemma AtRead(w: Width, buf: string, isConnect: bool, lo: nat, host: nat)
    requires lo < host <= |buf| && Ample(w, |buf|) && Plain(buf, lo, host - 1) && buf[host - 1] == '@'
    requires var sc := ScanTo(w, buf, isConnect, lo); sc.state.ServerStart? && sc.last != Some(HOST)
    ensures Reached(ScanTo(w, buf, isConnect, lo).(foundAt := true), ScanTo(w, buf, isConnect, host), ServerWithAt, lo, host)
  {
    hide ScanTo, ParseUrlChar, IsPlain, Touch;
    var sc := ScanTo(w, buf, isConnect, lo);
    AtStays();
    OneByte(w, buf, isConnect, host - 1);
    if lo < host - 1 {
      forall i | lo <= i < host - 1
        ensures ParseUrlChar(ServerStart, buf[i]) == Server && ParseUrlChar(Server, buf[i]) == Server
      {
        PlainStays(buf[i]);
      }
      Component(w, buf, isConnect, lo, host - 1, Server);
      TouchGrows(w, ScanTo(w, buf, isConnect, host - 1), ServerWithAt, host - 1, lo);
      UpdateTwice(sc.fields, HOST, Some(Range(lo, host - 1 - lo)), Some(Range(lo, host - lo)));
    } else {
      TouchBegins(w, sc, ServerWithAt, lo);
    }
  }

  lemma AtStays()
    ensures ParseUrlChar(ServerStart, '@') == ServerWithAt && ParseUrlChar(Server, '@') == ServerWithAt
  {
  }

  lemma BehindAt(w: Width, buf: string, isConnect: bool, lo: nat, host: nat)
    requires lo < host < |buf| && Ample(w, |buf|) && IsPlain(buf[host])
    requires Reached(ScanTo(w, buf, isConnect, lo).(foundAt := true), ScanTo(w, buf, isConnect, host), ServerWithAt, lo, host)
    ensures Reached(ScanTo(w, buf, isConnect, lo).(foundAt := true), ScanTo(w, buf, isConnect, host + 1), Server, lo, host + 1)
  {
    hide ScanTo, ParseUrlChar, IsPlain, Touch;
    PlainStays(buf[host]);
    OneByte(w, buf, isConnect, host);
    TouchGrows(w, ScanTo(w, buf, isConnect, host), Server, host, lo);
    UpdateTwice(ScanTo(w, buf, isConnect, lo).fields, HOST, Some(Range(lo, host - lo)), Some(Range(lo, host + 1 - lo)));
  }

  /** Userinfo, host and port are plain but for the `@`. */
  lemma TextIsPlain(buf: string, f: Fields, s: Seams)
    requires |f| == FIELDS && UserinfoText(buf, f[USERINFO], s.server, s.host)
    requires HostText(buf, f[HOST], s.host, s.hostEnd) && PortText(buf, f[PORT], s.hostEnd, s.serverEnd)
    ensures s.server <= s.host < s.serverEnd <= |buf| && Plain(buf, s.host, s.serverEnd)
    ensures s.server < s.host ==> Plain(buf, s.server, s.host - 1) && buf[s.host - 1] == '@'
  {
    hide V6Text, Fits, IsPlain;
    FitsPlain();
    HostIsPlain(buf, f[HOST], s.host, s.hostEnd);
  }

  lemma FitsPlain()
    ensures forall k, ch :: Fits(k, ch) && (k.UserinfoChars? || k.NameChars? || k.V6Chars? || k.ZoneChars? || k.Digit?) ==> IsPlain(ch)
    ensures IsPlain('[') && IsPlain(']') && IsPlain(':') && IsPlain('%')
  {
    hide Decimal, Hexadecimal;
    DecimalsAre(':');
    forall k, ch | Fits(k, ch) && (k.UserinfoChars? || k.NameChars? || k.V6Chars? || k.ZoneChars? || k.Digit?) ensures IsPlain(ch) {
      DecimalsAre(ch);
      HexadecimalsAre(ch);
    }
  }

  lemma HostIsPlain(buf: string, host: Option<Range>, at: nat, end: nat)
    requires HostText(buf, host, at, end)
    ensures at < end && Plain(buf, at, end)
  {
    hide Fits, IsPlain;
    FitsPlain();
  }

  /** The fields of the first pass at the end of the server part. */
  ghost function RawFields(f: Fields, s: Seams): (r: Fields)
    requires |f| == FIELDS && s.server <= s.serverEnd
  {
    NoFields()[SCHEMA := f[SCHEMA]][HOST := Some(Range(s.server, s.serverEnd - s.server))]
  }

  lemma FrontRead(w: Width, buf: string, isConnect: bool, f: Fields, s: Seams)
    requires Ample(w, |buf|) && |f| == FIELDS && f[HOST].Some? && FrontText(buf, isConnect, f, s)
    ensures s.server <= s.host < s.serverEnd <= |buf|
    ensures ScanTo(w, buf, isConnect, s.serverEnd) == Scan(Server, RawFields(f, s), Some(HOST), s.server < s.host)
  {
    hide ScanTo, UserinfoText, HostText, PortText, SchemaText, Plain;
    TextIsPlain(buf, f, s);
    Start(w, buf, isConnect);
    if isConnect {
      assert NoFields()[SCHEMA := None] == NoFields();
    } else {
      SchemaRead(w, buf, f[SCHEMA], s.server);
    }
    ServerRead(w, buf, isConnect, s.server, s.host, s.serverEnd);
  }

  /** A component that may be missing. */
  function With(f: Fields, i: nat, r: Option<Range>): (f': Fields)
    requires i < |f|
    ensures |f'| == |f|
  {
    if r.Some? then f[i := r] else f
  }

  lemma PathRead(w: Width, buf: string, isConnect: bool, path: Option<Range>, a: nat, b: nat)
    requires a <= |buf| && Ample(w, |buf|)
    requires var sc := ScanTo(w, buf, isConnect, a);
             PathText(buf, path, sc.state.Server?, a, b) && (sc.state.Server? || sc.state.SpacesBeforeUrl?) && sc.last != Some(PATH)
    ensures a <= b <= |buf|
    ensures var sc, sc' := ScanTo(w, buf, isConnect, a), ScanTo(w, buf, isConnect, b);
            && sc'.fields == With(sc.fields, PATH, path) && sc'.foundAt == sc.foundAt
            && sc'.state == (if path.Some? then Path else sc.state) && sc'.last == (if path.Some? then Some(PATH) else sc.last)
  {
    hide ScanTo, PathChar, Letter, UserinfoChar, IsUrlChar, IsAlpha, IsUserinfoChar;
    if path.Some? {
      assert forall i :: a <= i < b ==> Fits(PathChars, buf[i]);
      PathStays();
      Component(w, buf, isConnect, a, b, Path);
    }
  }

  lemma PathStays()
    ensures forall ch :: Fits(PathChars, ch) ==> ParseUrlChar(Path, ch) == Path
    ensures forall ch :: Fits(QueryChars, ch) ==> ParseUrlChar(QueryStart, ch) == Query && ParseUrlChar(Query, ch) == Query
    ensures forall ch :: Fits(FragmentChars, ch) ==> ParseUrlChar(Fragment, ch) == Fragment
    ensures forall ch :: Fits(FragmentChars, ch) && ch != '#' ==> ParseUrlChar(FragmentStart, ch) == Fragment
  {
  }

  lemma QueryRead(w: Width, buf: string, isConnect: bool, query: Option<Range>, a: nat, b: nat)
    requires a <= |buf| && Ample(w, |buf|) && QueryText(buf, query, a, b)
    requires var sc := ScanTo(w, buf, isConnect, a); (sc.state.Server? || sc.state.Path?) && sc.last != Some(QUERY)
    ensures a <= b <= |buf|
    ensures var sc, sc' := ScanTo(w, buf, isConnect, a), ScanTo(w, buf, isConnect, b);
            && sc'.fields == With(sc.fields, QUERY, query) && sc'.foundAt == sc.foundAt
            && sc'.state == (if query.Some? then Query else if a < b then QueryStart else sc.state)
            && sc'.last == (if query.Some? then Some(QUERY) else sc.last)
  {
    hide ScanTo, ParseUrlChar, Fits;
    if a < b {
      MarkLeads(ScanTo(w, buf, isConnect, a).state);
      Delimiter(w, buf, isConnect, a, QueryStart);
      if query.Some? {
        assert forall i :: a < i < b ==> Fits(QueryChars, buf[i]);
        PathStays();
        Component(w, buf, isConnect, a + 1, b, Query);
      }
    }
  }

  lemma MarkLeads(s: UrlState)
    requires s.Server? || s.Path?
    ensures ParseUrlChar(s, '?') == QueryStart
  {
  }

  lemma {:induction false} HashesRead(w: Width, buf: string, isConnect: bool, a: nat, b: nat)
    requires Run(buf, Hashes, a, b) && Ample(w, |buf|)
    requires a < b ==> var s := ScanTo(w, buf, isConnect, a).state; s.Path? || s.QueryStart? || s.Query?
    ensures var sc, sc' := ScanTo(w, buf, isConnect, a), ScanTo(w, buf, isConnect, b);
            sc' == if a < b then sc.(state := FragmentStart) else sc
    decreases b
  {
    hide ScanTo, PathChar, Letter, UserinfoChar, IsUrlChar, IsAlpha, IsUserinfoChar;
    if a < b {
      HashesRead(w, buf, isConnect, a, b - 1);
      assert Fits(Hashes, buf[b - 1]);
      HashLeads(ScanTo(w, buf, isConnect, b - 1).state);
      Delimiter(w, buf, isConnect, b - 1, FragmentStart);
    }
  }

  lemma HashLeads(s: UrlState)
    requires s.Path? || s.QueryStart? || s.Query? || s.FragmentStart?
    ensures ParseUrlChar(s, '#') == FragmentStart
  {
  }

  lemma FragmentRead(w: Width, buf: string, isConnect: bool, fragment: Option<Range>, a: nat)
    requires a <= |buf| && Ample(w, |buf|) && FragmentText(buf, fragment, a, |buf|)
    requires var sc := ScanTo(w, buf, isConnect, a);
             && (a < |buf| ==> sc.state.Path? || sc.state.QueryStart? || sc.state.Query?)
             && sc.last != Some(FRAGMENT) && !sc.state.Dead?
    ensures var sc, sc' := ScanTo(w, buf, isConnect, a), ScanTo(w, buf, isConnect, |buf|);
            sc'.fields == With(sc.fields, FRAGMENT, fragment) && sc'.foundAt == sc.foundAt && !sc'.state.Dead?
  {
    hide ScanTo, PathChar, Letter, UserinfoChar, IsUrlChar, IsAlpha, IsUserinfoChar, ParseUrlChar;
    if fragment.Some? {
      var off := fragment.value.off;
      HashesRead(w, buf, isConnect, a, off);
      assert forall i :: off <= i < |buf| ==> Fits(FragmentChars, buf[i]);
      PathStays();
      Component(w, buf, isConnect, off, |buf|, Fragment);
    } else {
      HashesRead(w, buf, isConnect, a, |buf|);
    }
  }

  // ---------------------------------------------------------------- such a text is accepted: the second pass

  lemma OneHostByte(w: Width, buf: string, begin: HostScan, lo: nat, p: nat)
    requires lo <= p < |buf| && |begin.fields| == FIELDS
    ensures var h := HostTo(w, buf, begin, lo, p);
            HostTo(w, buf, begin, lo, p + 1) == HostTouch(w, h, ParseHostChar(h.state, buf[p]), p)
  {
  }

  /** A state that marks a stretch of userinfo or of the port. */
  function PieceOf(s: HostState): Option<nat> {
    if s.Userinfo? then Some(USERINFO) else if s.PortDigits? then Some(PORT) else None
  }

  /** Userinfo or port from `o` to `q`. */
  lemma {:induction false} PieceRead(w: Width, buf: string, begin: HostScan, lo: nat, o: nat, q: nat, s: HostState)
    requires lo <= o < q <= |buf| && Ample(w, |buf|) && |begin.fields| == FIELDS && PieceOf(s).Some?
    requires HostTo(w, buf, begin, lo, o).state != s && ParseHostChar(HostTo(w, buf, begin, lo, o).state, buf[o]) == s
    requires forall i :: o < i < q ==> ParseHostChar(s, buf[i]) == s
    ensures HostTo(w, buf, begin, lo, q) ==
            HostScan(s, HostTo(w, buf, begin, lo, o).fields[PieceOf(s).value := Some(Range(o, q - o))])
    decreases q
  {
    hide HostTo, ParseHostChar, HostTouch;
    var h := HostTo(w, buf, begin, lo, o);
    OneHostByte(w, buf, begin, lo, q - 1);
    if o + 1 < q {
      PieceRead(w, buf, begin, lo, o, q - 1, s);
      PieceTouched(w, HostTo(w, buf, begin, lo, q - 1), s, q - 1, o);
      UpdateTwice(h.fields, PieceOf(s).value, Some(Range(o, q - 1 - o)), Some(Range(o, q - o)));
    } else {
      PieceTouched(w, h, s, o, o);
    }
  }

  lemma PieceTouched(w: Width, h: HostScan, s: HostState, p: nat, o: nat)
    requires o <= p && Ample(w, p + 1) && |h.fields| == FIELDS && PieceOf(s).Some?
    requires if o == p then h.state != s else h.state == s && h.fields[PieceOf(s).value] == Some(Range(o, p - o))
    ensures HostTouch(w, h, s, p) == HostScan(s, h.fields[PieceOf(s).value := Some(Range(o, p + 1 - o))])
  {
  }

  /** The host from `o` to `q`, when its length was nought at `o`. */
  lemma {:induction false} HostRead(w: Width, buf: string, begin: HostScan, lo: nat, o: nat, q: nat, s: HostState)
    requires lo <= o < q <= |buf| && Ample(w, |buf|) && |begin.fields| == FIELDS && (s.HostName? || s.V6?)
    requires var h := HostTo(w, buf, begin, lo, o);
             h.state != s && ParseHostChar(h.state, buf[o]) == s && h.fields[HOST].Some? && h.fields[HOST].value.len == 0
    requires forall i :: o < i < q ==> ParseHostChar(s, buf[i]) == s
    ensures HostTo(w, buf, begin, lo, q) == HostScan(s, HostTo(w, buf, begin, lo, o).fields[HOST := Some(Range(o, q - o))])
    decreases q
  {
    hide HostTo, ParseHostChar, HostTouch;
    var h := HostTo(w, buf, begin, lo, o);
    OneHostByte(w, buf, begin, lo, q - 1);
    if o + 1 < q {
      HostRead(w, buf, begin, lo, o, q - 1, s);
      HostByteTouched(w, HostTo(w, buf, begin, lo, q - 1), s, q - 1, o);
      UpdateTwice(h.fields, HOST, Some(Range(o, q - 1 - o)), Some(Range(o, q - o)));
    } else {
      HostByteTouched(w, h, s, o, o);
    }
  }

  lemma HostByteTouched(w: Width, h: HostScan, s: HostState, p: nat, o: nat)
    requires o <= p && Ample(w, p + 1) && |h.fields| == FIELDS && (s.HostName? || s.V6?)
    requires h.fields[HOST].Some? && (if o == p then h.state != s && h.fields[HOST].value.len == 0
                                      else h.state == s && h.fields[HOST] == Some(Range(o, p - o)))
    ensures HostTouch(w, h, s, p) == HostScan(s, h.fields[HOST := Some(Range(o, p + 1 - o))])
  {
  }

  /** The zone from its percent sign at `z` to `q` is part of the host that began at `o`. */
  lemma {:induction false} ZoneRead(w: Width, buf: string, begin: HostScan, lo: nat, o: nat, z: nat, q: nat)
    requires lo <= o < z < q <= |buf| && Ample(w, |buf|) && |begin.fields| == FIELDS && buf[z] == '%' && Run(buf, ZoneChars, z + 1, q)
    requires var h := HostTo(w, buf, begin, lo, z); h.state.V6? && h.fields[HOST] == Some(Range(o, z - o))
    ensures HostTo(w, buf, begin, lo, q) ==
            HostScan(if q == z + 1 then V6ZoneStart else V6Zone, HostTo(w, buf, begin, lo, z).fields[HOST := Some(Range(o, q - o))])
    decreases q
  {
    hide HostTo, IsV6Char, IsZoneChar, HostTouch;
    var h := HostTo(w, buf, begin, lo, z);
    OneHostByte(w, buf, begin, lo, q - 1);
    if z + 1 < q {
      ZoneRead(w, buf, begin, lo, o, z, q - 1);
      assert Fits(ZoneChars, buf[q - 1]);
      ZoneLeads(buf[q - 1]);
      ZoneTouched(w, HostTo(w, buf, begin, lo, q - 1), V6Zone, q - 1, o);
      UpdateTwice(h.fields, HOST, Some(Range(o, q - 1 - o)), Some(Range(o, q - o)));
    } else {
      ZoneSign();
      ZoneTouched(w, h, V6ZoneStart, z, o);
    }
  }

  lemma ZoneSign()
    ensures ParseHostChar(V6, '%') == V6ZoneStart
  {
  }

  lemma ZoneLeads(ch: char)
    requires ZoneChar(ch)
    ensures ParseHostChar(V6ZoneStart, ch) == V6Zone && ParseHostChar(V6Zone, ch) == V6Zone
  {
  }

  lemma ZoneTouched(w: Width, h: HostScan, s: HostState, p: nat, o: nat)
    requires o <= p && Ample(w, p + 1) && |h.fields| == FIELDS && (s.V6ZoneStart? || s.V6Zone?) && h.fields[HOST] == Some(Range(o, p - o))
    ensures HostTouch(w, h, s, p) == HostScan(s, h.fields[HOST := Some(Range(o, p + 1 - o))])
  {
  }

  /** A byte between pieces. */
  lemma HostDelimiter(w: Width, buf: string, begin: HostScan, lo: nat, p: nat, s: HostState)
    requires lo <= p < |buf| && |begin.fields| == FIELDS && ParseHostChar(HostTo(w, buf, begin, lo, p).state, buf[p]) == s
    requires s.HostStart? || s.V6Start? || s.V6End? || s.PortStart?
    ensures HostTo(w, buf, begin, lo, p + 1) == HostScan(s, HostTo(w, buf, begin, lo, p).fields)
  {
  }

  lemma UserinfoRead(w: Width, buf: string, begin: HostScan, userinfo: Option<Range>, lo: nat, host: nat)
    requires Ample(w, |buf|) && |begin.fields| == FIELDS && UserinfoText(buf, userinfo, lo, host) && lo <= |buf|
    requires begin.state == if lo < host then UserinfoStart else HostStart
    ensures lo <= host <= |buf|
    ensures HostTo(w, buf, begin, lo, host) == HostScan(HostStart, With(begin.fields, USERINFO, userinfo))
  {
    hide HostTouch, UserinfoChar, IsUserinfoChar;
    if userinfo.Some? {
      var end := End(userinfo.value);
      forall i | lo <= i < end ensures UserinfoChar(buf[i]) {
        assert Fits(UserinfoChars, buf[i]);
      }
      UserinfoStays();
      PieceRead(w, buf, begin, lo, lo, end, Userinfo);
      HostDelimiter(w, buf, begin, lo, end, HostStart);
    } else if lo < host {
      HostDelimiter(w, buf, begin, lo, lo, HostStart);
    }
  }

  lemma UserinfoStays()
    ensures forall ch :: UserinfoChar(ch) ==> ParseHostChar(UserinfoStart, ch) == Userinfo && ParseHostChar(Userinfo, ch) == Userinfo
    ensures ParseHostChar(UserinfoStart, '@') == HostStart && ParseHostChar(Userinfo, '@') == HostStart
  {
  }

  /** The host is read, by name or by address. */
  lemma HostPartRead(w: Width, buf: string, begin: HostScan, host: Option<Range>, lo: nat, at: nat, end: nat)
    requires Ample(w, |buf|) && |begin.fields| == FIELDS && lo <= at && HostText(buf, host, at, end)
    requires at <= |buf| && HostTo(w, buf, begin, lo, at).state.HostStart?
    requires var h := HostTo(w, buf, begin, lo, at); h.fields[HOST].Some? && h.fields[HOST].value.len == 0
    ensures end <= |buf| && at < end
    ensures var h := HostTo(w, buf, begin, lo, end);
            (h.state.HostName? || h.state.V6End?) && h.fields == HostTo(w, buf, begin, lo, at).fields[HOST := host]
  {
    hide HostTo, V6Text, Fits;
    HostLeads();
    var off, hi := host.value.off, End(host.value);
    if at == off && Run(buf, NameChars, off, hi) && hi == end {
      HostRead(w, buf, begin, lo, off, hi, HostName);
    } else {
      HostDelimiter(w, buf, begin, lo, at, V6Start);
      AddressRead(w, buf, begin, lo, off, hi);
      HostDelimiter(w, buf, begin, lo, hi, V6End);
    }
  }

  lemma HostLeads()
    ensures forall ch :: Fits(NameChars, ch) ==> ParseHostChar(HostStart, ch) == HostName && ParseHostChar(HostName, ch) == HostName
    ensures forall ch :: Fits(V6Chars, ch) ==> ParseHostChar(V6Start, ch) == V6 && ParseHostChar(V6, ch) == V6
    ensures ParseHostChar(HostStart, '[') == V6Start
    ensures ParseHostChar(V6, ']') == V6End && ParseHostChar(V6Zone, ']') == V6End
  {
  }

  lemma AddressRead(w: Width, buf: string, begin: HostScan, lo: nat, off: nat, hi: nat)
    requires Ample(w, |buf|) && |begin.fields| == FIELDS && lo <= off && V6Text(buf, off, hi) && off <= |buf|
    requires var h := HostTo(w, buf, begin, lo, off); h.state.V6Start? && h.fields[HOST].Some? && h.fields[HOST].value.len == 0
    ensures off < hi <= |buf|
    ensures var h := HostTo(w, buf, begin, lo, hi);
            (h.state.V6? || h.state.V6Zone?)
            && h.fields == HostTo(w, buf, begin, lo, off).fields[HOST := Some(Range(off, hi - off))]
  {
    hide HostTo, Fits, ParseHostChar;
    HostLeads();
    if Run(buf, V6Chars, off, hi) {
      HostRead(w, buf, begin, lo, off, hi, V6);
    } else {
      var z: nat :| ZoneText(buf, off, z, hi);
      HostRead(w, buf, begin, lo, off, z, V6);
      ZoneRead(w, buf, begin, lo, off, z, hi);
      UpdateTwice(HostTo(w, buf, begin, lo, off).fields, HOST, Some(Range(off, z - off)), Some(Range(off, hi - off)));
    }
  }

  lemma PortRead(w: Width, buf: string, begin: HostScan, port: Option<Range>, lo: nat, at: nat, end: nat)
    requires Ample(w, |buf|) && |begin.fields| == FIELDS && lo <= at <= |buf| && PortText(buf, port, at, end)
    requires var s := HostTo(w, buf, begin, lo, at).state; s.HostName? || s.V6End?
    ensures at <= end <= |buf|
    ensures var h := HostTo(w, buf, begin, lo, end);
            HostMayEnd(h.state) && h.fields == With(HostTo(w, buf, begin, lo, at).fields, PORT, port)
  {
    hide HostTo, Fits, ParseHostChar;
    PortLeads();
    if port.Some? {
      HostDelimiter(w, buf, begin, lo, at, PortStart);
      PieceRead(w, buf, begin, lo, at + 1, end, PortDigits);
    }
  }

  lemma PortLeads()
    ensures ParseHostChar(HostName, ':') == PortStart && ParseHostChar(V6End, ':') == PortStart
    ensures forall ch :: Fits(Digit, ch) ==> ParseHostChar(PortStart, ch) == PortDigits && ParseHostChar(PortDigits, ch) == PortDigits
  {
  }

  // ---------------------------------------------------------------- both passes

  /** What the first pass leaves for the second. */
  ghost predicate ReadyToSplit(f: Fields, s: Seams, sc: Scan) {
    && |f| == |sc.fields| == FIELDS && s.server <= s.serverEnd
    && sc.fields[HOST] == Some(Range(s.server, s.serverEnd - s.server)) && sc.foundAt == (s.server < s.host)
    && sc.fields[USERINFO].None? && sc.fields[PORT].None?
    && forall i :: 0 <= i < FIELDS && i != HOST && i != USERINFO && i != PORT ==> sc.fields[i] == f[i]
  }

  lemma ServerSplit(w: Width, buf: string, isConnect: bool, f: Fields, s: Seams, sc: Scan)
    requires Ample(w, |buf|) && |f| == FIELDS && f[HOST].Some? && FrontText(buf, isConnect, f, s) && ReadyToSplit(f, s, sc)
    requires s.serverEnd <= |buf|
    ensures SplitHost(w, buf, sc) == Some(f)
  {
    hide HostTo, UserinfoText, HostText, PortText, ServerAt;
    var begin := HostBegin(sc.fields, sc.foundAt);
    TextIsPlain(buf, f, s);
    BeginAtStart(w, buf, begin, s.server);
    UserinfoRead(w, buf, begin, f[USERINFO], s.server, s.host);
    HostPartRead(w, buf, begin, f[HOST], s.server, s.host, s.hostEnd);
    PortRead(w, buf, begin, f[PORT], s.server, s.hostEnd, s.serverEnd);
    assert HostTo(w, buf, begin, s.server, s.serverEnd).fields == f;
  }

  lemma BeginAtStart(w: Width, buf: string, begin: HostScan, lo: nat)
    requires lo <= |buf| && |begin.fields| == FIELDS
    ensures HostTo(w, buf, begin, lo, lo) == begin
  {
  }

  /** The first pass over such a text. */
  lemma TextScanned(w: Width, buf: string, isConnect: bool, f: Fields, s: Seams)
    requires Ample(w, |buf|) && |f| == FIELDS && FrontText(buf, isConnect, f, s) && BackText(buf, f, s)
    ensures |buf| > 0 && s.serverEnd <= |buf|
    ensures var sc := ScanTo(w, buf, isConnect, |buf|);
            !sc.state.Dead? && if f[HOST].Some? then ReadyToSplit(f, s, sc) else sc.fields == f
  {
    hide ScanTo, UserinfoText, HostText, PortText, ServerAt, PathText, QueryText, FragmentText;
    if f[HOST].Some? {
      FrontRead(w, buf, isConnect, f, s);
    } else {
      Start(w, buf, isConnect);
    }
    BackInBounds(buf, f, s);
    PathRead(w, buf, isConnect, f[PATH], s.serverEnd, s.pathEnd);
    QueryRead(w, buf, isConnect, f[QUERY], s.pathEnd, s.queryEnd);
    FragmentRead(w, buf, isConnect, f[FRAGMENT], s.queryEnd);
  }

  lemma BackInBounds(buf: string, f: Fields, s: Seams)
    requires |f| == FIELDS && BackText(buf, f, s)
    ensures s.serverEnd <= s.pathEnd <= s.queryEnd <= |buf|
    ensures f[PATH].Some? ==> s.serverEnd < s.pathEnd
  {
  }

  lemma Complete(w: Width, buf: string, isConnect: bool, u: Url, s: Seams)
    requires Ample(w, |buf|) && UrlText(buf, isConnect, u, s)
    ensures SplitUrl(w, buf, isConnect) == Some(u)
  {
    hide ScanTo, SplitHost, BackText, PortTo, Scanned, HostText, UserinfoText, PathText;
    var sc := ScanTo(w, buf, isConnect, |buf|);
    TextScanned(w, buf, isConnect, u.fields, s);
    ScanInOrder(w, buf, isConnect, |buf|);
    if u.fields[HOST].Some? {
      SplitHostInOrder(w, buf, sc);
      ServerSplit(w, buf, isConnect, u.fields, s, sc);
    }
    if u.fields[PORT].Some? {
      var r := u.fields[PORT].value;
      assert forall i :: r.off <= i < End(r) ==> Decimal(buf[i]) by {
        assert forall i :: 0 <= i < r.len ==> buf[r.off..End(r)][i] == buf[r.off + i];
      }
      PortIsDecimal(buf, r.off, End(r));
    }
  }

  /**
   The buffer is accepted with these components and this port if and only if it is a URL by the grammar with
   just these.
   */
  lemma AcceptsExactly(w: Width, buf: string, isConnect: bool, u: Url)
    requires Ample(w, |buf|)
    ensures SplitUrl(w, buf, isConnect) == Some(u) <==> exists s: Seams :: UrlText(buf, isConnect, u, s)
  {
    hide UrlText, SplitUrl;
    if SplitUrl(w, buf, isConnect) == Some(u) {
      var s := Sound(w, buf, isConnect);
    } else {
      forall s: Seams | UrlText(buf, isConnect, u, s) ensures false {
        Complete(w, buf, isConnect, u, s);
      }
    }
  }

  /** A fragment straight behind the server part is refused. */
  lemma NoHashBehindServer(w: Width, buf: string, isConnect: bool, p: nat)
    requires p < |buf| && Ample(w, |buf|) && buf[p] == '#' && ScanTo(w, buf, isConnect, p).state.Server?
    ensures SplitUrl(w, buf, isConnect).None?
  {
    hide ScanTo, ParseUrlChar, Touch;
    HashKills();
    OneByte(w, buf, isConnect, p);
    DeadForGood(w, buf, isConnect, p + 1, |buf|);
  }

  lemma HashKills()
    ensures ParseUrlChar(Server, '#') == Dead
  {
  }
}
