/**
 A URL as a text: which characters stand in each component, and which delimiters between them. The predicates of
 this module never mention the splitter's states; every URL that the splitter accepts is proved to be such a text.
 */
module HttpUrlText {
  import opened Options
  import opened HttpChars
  import opened HttpLength
  import opened HttpUrl

  /** The kinds of characters. */
  datatype Kind = Letters | ServerChars | PathChars | QueryChars | FragmentChars | Hashes
    | UserinfoChars | NameChars | V6Chars | ZoneChars | Digit

  ghost predicate Fits(k: Kind, ch: char) {
    match k
    case Letters => Letter(ch)
    case ServerChars => UserinfoChar(ch) || ch in "[]@"
    case PathChars => PathChar(ch)
    case QueryChars => PathChar(ch) || ch == '?'
    case FragmentChars => PathChar(ch) || ch == '?' || ch == '#'
    case Hashes => ch == '#'
    case UserinfoChars => UserinfoChar(ch)
    case NameChars => NameChar(ch)
    case V6Chars => V6Char(ch)
    case ZoneChars => ZoneChar(ch)
    case Digit => Decimal(ch)
  }

  ghost predicate Run(buf: string, k: Kind, lo: nat, hi: nat) {
    lo <= hi <= |buf| && forall i :: lo <= i < hi ==> Fits(k, buf[i])
  }

  ghost predicate At(buf: string, i: nat, ch: char) {
    i < |buf| && buf[i] == ch
  }

  // ---------------------------------------------------------------- the grammar

  /** Letters from the very beginning, and `://` behind them; then the server part. */
  ghost predicate SchemaText(buf: string, schema: Option<Range>, server: nat) {
    && schema.Some? && schema.value.off == 0 && schema.value.len >= 1
    && var n := schema.value.len;
       Run(buf, Letters, 0, n) && At(buf, n, ':') && At(buf, n + 1, '/') && At(buf, n + 2, '/') && server == n + 3
  }

  /** Where the server part begins: behind the schema; at once in a CONNECT request. */
  ghost predicate ServerAt(buf: string, isConnect: bool, schema: Option<Range>, server: nat) {
    if isConnect then schema.None? && server == 0 else SchemaText(buf, schema, server)
  }

  /** From `lo` to `host`: nothing, or a `@`, or userinfo and a `@`. */
  ghost predicate UserinfoText(buf: string, userinfo: Option<Range>, lo: nat, host: nat) {
    match userinfo
    case None => host == lo || (host == lo + 1 && At(buf, lo, '@'))
    case Some(r) => r.off == lo && r.len >= 1 && Run(buf, UserinfoChars, lo, End(r)) && At(buf, End(r), '@') && host == End(r) + 1
  }

  /** An address, perhaps with a zone behind a percent sign. */
  ghost predicate V6Text(buf: string, lo: nat, hi: nat) {
    lo < hi && (Run(buf, V6Chars, lo, hi) || exists z: nat :: ZoneText(buf, lo, z, hi))
  }

  ghost predicate ZoneText(buf: string, lo: nat, z: nat, hi: nat) {
    lo < z && z + 1 < hi && Run(buf, V6Chars, lo, z) && At(buf, z, '%') && Run(buf, ZoneChars, z + 1, hi)
  }

  /** From `at` to `end`: a name, or an address in brackets. */
  ghost predicate HostText(buf: string, host: Option<Range>, at: nat, end: nat) {
    && host.Some? && host.value.len >= 1
    && var lo, hi := host.value.off, End(host.value);
       || (at == lo && hi == end && Run(buf, NameChars, lo, hi))
       || (at + 1 == lo && hi + 1 == end && At(buf, at, '[') && At(buf, hi, ']') && V6Text(buf, lo, hi))
  }

  /** From `lo` to `end`: nothing, or a colon and digits. */
  ghost predicate PortText(buf: string, port: Option<Range>, lo: nat, end: nat) {
    match port
    case None => end == lo
    case Some(r) => At(buf, lo, ':') && r.off == lo + 1 && r.len >= 1 && Run(buf, Digit, lo + 1, end) && end == End(r)
  }

  /** From `lo` to `end`: nothing, or a path; only where there is no server may it be told by an asterisk. */
  ghost predicate PathText(buf: string, path: Option<Range>, server: bool, lo: nat, end: nat) {
    match path
    case None => end == lo
    case Some(r) =>
      && r.off == lo && r.len >= 1 && end == End(r) && Run(buf, PathChars, lo, end)
      && (At(buf, lo, '/') || (!server && At(buf, lo, '*')))
  }

  /** From `lo` to `end`: nothing, or a question mark, or that and a query. */
  ghost predicate QueryText(buf: string, query: Option<Range>, lo: nat, end: nat) {
    match query
    case None => end == lo || (end == lo + 1 && At(buf, lo, '?'))
    case Some(r) => At(buf, lo, '?') && r.off == lo + 1 && r.len >= 1 && end == End(r) && Run(buf, QueryChars, lo + 1, end)
  }

  /** From `lo` to `end`: hashes only, or a fragment behind at least one. */
  ghost predicate FragmentText(buf: string, fragment: Option<Range>, lo: nat, end: nat) {
    match fragment
    case None => Run(buf, Hashes, lo, end)
    case Some(r) =>
      && lo < r.off && r.len >= 1 && end == End(r)
      && Run(buf, Hashes, lo, r.off) && !At(buf, r.off, '#') && Run(buf, FragmentChars, r.off, end)
  }

  /** Where the parts of a URL meet. */
  datatype Seams = Seams(server: nat, host: nat, hostEnd: nat, serverEnd: nat, pathEnd: nat, queryEnd: nat)

  /** What stands before the path: a server, or nothing. */
  ghost predicate FrontText(buf: string, isConnect: bool, f: Fields, s: Seams)
    requires |f| == FIELDS
  {
    if f[HOST].Some? then
      && ServerAt(buf, isConnect, f[SCHEMA], s.server)
      && UserinfoText(buf, f[USERINFO], s.server, s.host)
      && HostText(buf, f[HOST], s.host, s.hostEnd)
      && PortText(buf, f[PORT], s.hostEnd, s.serverEnd)
    else
      && !isConnect && f[SCHEMA].None? && f[USERINFO].None? && f[PORT].None? && f[PATH].Some?
      && s.serverEnd == 0
  }

  /** Path, query and fragment; hashes come only behind a path or a question mark. */
  ghost predicate BackText(buf: string, f: Fields, s: Seams)
    requires |f| == FIELDS
  {
    && PathText(buf, f[PATH], f[HOST].Some?, s.serverEnd, s.pathEnd)
    && QueryText(buf, f[QUERY], s.pathEnd, s.queryEnd)
    && FragmentText(buf, f[FRAGMENT], s.queryEnd, |buf|)
    && (f[PATH].None? && s.pathEnd == s.queryEnd ==> s.queryEnd == |buf|)
  }

  /** The whole of the buffer is a URL with these components. */
  ghost predicate UrlText(buf: string, isConnect: bool, u: Url, s: Seams) {
    && |u.fields| == FIELDS
    && FrontText(buf, isConnect, u.fields, s) && BackText(buf, u.fields, s)
    && (isConnect ==> OnlyHostAndPort(u.fields))
    && (match u.fields[PORT]
        case None => u.port == 0
        case Some(r) => PortMatches(buf, r, u.port))
  }

  ghost predicate OnlyHostAndPort(f: Fields)
    requires |f| == FIELDS
  {
    forall i :: 0 <= i < FIELDS ==> (f[i].Some? <==> i == HOST || i == PORT)
  }

  // ---------------------------------------------------------------- the first pass

  /** The server part as a whole, as the first pass notes it. */
  ghost predicate RawServer(buf: string, isConnect: bool, schema: Option<Range>, host: Option<Range>, end: nat) {
    && host.Some? && host.value.len >= 1 && end == End(host.value)
    && ServerAt(buf, isConnect, schema, host.value.off) && Run(buf, ServerChars, host.value.off, end)
  }

  /** A path may begin at `at`; one there is if nothing stands before it. */
  ghost predicate PathMayBegin(buf: string, isConnect: bool, schema: Option<Range>, host: Option<Range>, path: bool, at: nat) {
    if host.Some? then RawServer(buf, isConnect, schema, host, at)
    else ServerAt(buf, isConnect, schema, at) || (!isConnect && schema.None? && path && at == 0)
  }

  /** A server part and perhaps a path, up to `end`. */
  ghost predicate PathDone(buf: string, isConnect: bool, f: Fields, end: nat)
    requires |f| == FIELDS
  {
    var at := if f[PATH].Some? then f[PATH].value.off else end;
    PathMayBegin(buf, isConnect, f[SCHEMA], f[HOST], f[PATH].Some?, at) && PathText(buf, f[PATH], f[HOST].Some?, at, end)
  }

  /** And perhaps a query; where a fragment may begin. */
  ghost predicate QueryDone(buf: string, isConnect: bool, f: Fields, pathEnd: nat, end: nat)
    requires |f| == FIELDS
  {
    PathDone(buf, isConnect, f, pathEnd) && QueryText(buf, f[QUERY], pathEnd, end) && (f[PATH].None? ==> pathEnd < end)
  }

  /** What the first `p` bytes are when they lead to this state. */
  ghost predicate Passed(buf: string, isConnect: bool, sc: Scan, p: nat) {
    && |sc.fields| == FIELDS && p <= |buf|
    && var f := sc.fields;
       var schema := f[SCHEMA];
       match sc.state
       case Dead => true
       case SpacesBeforeUrl => !isConnect && p == 0
       case Schema => !isConnect && SchemaLetters(buf, schema, p)
       case SchemaSlash => !isConnect && p >= 1 && SchemaLetters(buf, schema, p - 1) && At(buf, p - 1, ':')
       case SchemaSlashSlash =>
         !isConnect && p >= 2 && SchemaLetters(buf, schema, p - 2) && At(buf, p - 2, ':') && At(buf, p - 1, '/')
       case ServerStart => ServerAt(buf, isConnect, schema, p)
       case Server | ServerWithAt => RawServer(buf, isConnect, schema, f[HOST], p)
       case Path => f[PATH].Some? && PathDone(buf, isConnect, f, p)
       case QueryStart => p >= 1 && PathDone(buf, isConnect, f, p - 1) && At(buf, p - 1, '?')
       case Query => f[QUERY].Some? && f[QUERY].value.off >= 1 && QueryDone(buf, isConnect, f, f[QUERY].value.off - 1, p)
       case FragmentStart => exists a: nat, b: nat :: QueryDone(buf, isConnect, f, a, b) && b < p && Run(buf, Hashes, b, p)
       case Fragment =>
         f[FRAGMENT].Some? && exists a: nat, b: nat :: QueryDone(buf, isConnect, f, a, b) && FragmentText(buf, f[FRAGMENT], b, p)
  }

  ghost predicate SchemaLetters(buf: string, schema: Option<Range>, p: nat) {
    schema == Some(Range(0, p)) && p >= 1 && Run(buf, Letters, 0, p)
  }

  /** The component grows by the byte, or begins with it. */
  lemma Touched(w: Width, sc: Scan, s': UrlState, p: nat)
    requires Scanned(sc, p) && Ample(w, p + 1) && Advances(sc.state, s') && FieldOf(s').Some?
    ensures var f := FieldOf(s').value;
            if FieldOf(s') == FieldOf(sc.state) then
              EndsAt(sc.fields, f, p)
              && Touch(w, sc, s', p).fields == sc.fields[f := Some(Range(sc.fields[f].value.off, sc.fields[f].value.len + 1))]
            else sc.fields[f].None? && Touch(w, sc, s', p).fields == sc.fields[f := Some(Range(p, 1))]
  {
    hide InOrder;
    var f := FieldOf(s').value;
    if FieldOf(s') == FieldOf(sc.state) {
      LastIsHere(w, sc, s', p);
    } else {
      assert Has(sc.fields, f) ==> Rank(f) <= Bound(sc.state);
    }
  }

  lemma Unfound(sc: Scan, p: nat)
    requires Scanned(sc, p)
    ensures Bound(sc.state) < 2 ==> sc.fields[HOST].None?
    ensures Bound(sc.state) < 4 ==> sc.fields[PATH].None?
    ensures Bound(sc.state) < 5 ==> sc.fields[QUERY].None?
    ensures Bound(sc.state) < 6 ==> sc.fields[FRAGMENT].None?
    ensures Bound(sc.state) < 0 ==> sc.fields[SCHEMA].None?
  {
    hide InOrder, EndsAt;
    assert Has(sc.fields, HOST) ==> Rank(HOST) <= Bound(sc.state);
    assert Has(sc.fields, PATH) ==> Rank(PATH) <= Bound(sc.state);
    assert Has(sc.fields, QUERY) ==> Rank(QUERY) <= Bound(sc.state);
    assert Has(sc.fields, FRAGMENT) ==> Rank(FRAGMENT) <= Bound(sc.state);
    assert Has(sc.fields, SCHEMA) ==> Rank(SCHEMA) <= Bound(sc.state);
  }

  ghost predicate Next(w: Width, buf: string, isConnect: bool, sc: Scan, p: nat) {
    p < |buf| && Ample(w, |buf|) && Scanned(sc, p) && Passed(buf, isConnect, sc, p) && !ParseUrlChar(sc.state, buf[p]).Dead?
  }

  lemma SchemaMoves(s: UrlState, ch: char)
    ensures var s' := ParseUrlChar(s, ch);
            && (s'.Schema? ==> (s.SpacesBeforeUrl? || s.Schema?) && Letter(ch))
            && (s'.SchemaSlash? ==> s.Schema? && ch == ':')
            && (s'.SchemaSlashSlash? ==> s.SchemaSlash? && ch == '/')
            && (s'.ServerStart? ==> s.SchemaSlashSlash? && ch == '/')
  {
  }

  lemma SchemaStep(w: Width, buf: string, isConnect: bool, sc: Scan, p: nat)
    requires Next(w, buf, isConnect, sc, p)
    requires var s' := ParseUrlChar(sc.state, buf[p]);
             s'.Schema? || s'.SchemaSlash? || s'.SchemaSlashSlash? || s'.ServerStart?
    ensures Passed(buf, isConnect, Touch(w, sc, ParseUrlChar(sc.state, buf[p]), p), p + 1)
  {
    hide ParseUrlChar, Scanned, Touch, UserinfoChar, Letter, PathChar, IsUserinfoChar, IsAlpha, IsUrlChar, RawServer, PathDone, QueryDone, FragmentText;
    var s' := ParseUrlChar(sc.state, buf[p]);
    SchemaMoves(sc.state, buf[p]);
    StatesAdvance(sc.state, buf[p]);
    if s'.Schema? {
      Touched(w, sc, s', p);
    } else {
      DelimiterTouched(w, sc, s', p);
    }
  }

  lemma ServerStep(w: Width, buf: string, isConnect: bool, sc: Scan, p: nat)
    requires Next(w, buf, isConnect, sc, p)
    requires ParseUrlChar(sc.state, buf[p]).Server? || ParseUrlChar(sc.state, buf[p]).ServerWithAt?
    ensures Passed(buf, isConnect, Touch(w, sc, ParseUrlChar(sc.state, buf[p]), p), p + 1)
  {
    hide Scanned, Touch, UserinfoChar, Letter, PathChar, IsUserinfoChar, IsAlpha, IsUrlChar, ServerAt, PathDone, QueryDone, FragmentText;
    var s' := ParseUrlChar(sc.state, buf[p]);
    StatesAdvance(sc.state, buf[p]);
    Touched(w, sc, s', p);
  }

  lemma DelimiterTouched(w: Width, sc: Scan, s': UrlState, p: nat)
    requires |sc.fields| == FIELDS && FieldOf(s').None?
    ensures Touch(w, sc, s', p).fields == sc.fields
  {
  }

  lemma PathStep(w: Width, buf: string, isConnect: bool, sc: Scan, p: nat)
    requires Next(w, buf, isConnect, sc, p)
    requires ParseUrlChar(sc.state, buf[p]).Path? || ParseUrlChar(sc.state, buf[p]).QueryStart?
    ensures Passed(buf, isConnect, Touch(w, sc, ParseUrlChar(sc.state, buf[p]), p), p + 1)
  {
    hide Scanned, Touch, UserinfoChar, Letter, IsUserinfoChar, IsAlpha, ServerAt, QueryDone, FragmentText;
    var s' := ParseUrlChar(sc.state, buf[p]);
    StatesAdvance(sc.state, buf[p]);
    Unfound(sc, p);
    if FieldOf(s').Some? {
      Touched(w, sc, s', p);
    } else {
      DelimiterTouched(w, sc, s', p);
    }
  }

  lemma QueryStep(w: Width, buf: string, isConnect: bool, sc: Scan, p: nat)
    requires Next(w, buf, isConnect, sc, p) && ParseUrlChar(sc.state, buf[p]).Query?
    ensures Passed(buf, isConnect, Touch(w, sc, ParseUrlChar(sc.state, buf[p]), p), p + 1)
  {
    hide Scanned, Touch, UserinfoChar, Letter, IsUserinfoChar, IsAlpha, PathMayBegin, FragmentText;
    var s' := ParseUrlChar(sc.state, buf[p]);
    StatesAdvance(sc.state, buf[p]);
    Touched(w, sc, s', p);
  }

  /** Where the hashes began. */
  lemma FragmentStarts(w: Width, buf: string, isConnect: bool, sc: Scan, p: nat) returns (a: nat, b: nat)
    requires Next(w, buf, isConnect, sc, p)
    requires ParseUrlChar(sc.state, buf[p]).FragmentStart? || ParseUrlChar(sc.state, buf[p]).Fragment?
    ensures QueryDone(buf, isConnect, sc.fields, a, b)
    ensures sc.state.Fragment? ==> FragmentText(buf, sc.fields[FRAGMENT], b, p)
    ensures !sc.state.Fragment? ==> Run(buf, Hashes, b, p)
    ensures sc.state.FragmentStart? ==> b < p
  {
    hide Scanned, UserinfoChar, Letter, IsUserinfoChar, IsAlpha, PathMayBegin, PathText;
    Unfound(sc, p);
    match sc.state
    case FragmentStart => a, b :| QueryDone(buf, isConnect, sc.fields, a, b) && b < p && Run(buf, Hashes, b, p);
    case Fragment => a, b :| QueryDone(buf, isConnect, sc.fields, a, b) && FragmentText(buf, sc.fields[FRAGMENT], b, p);
    case Query => a, b := sc.fields[QUERY].value.off - 1, p;
    case QueryStart => a, b := p - 1, p;
    case _ => a, b := p, p;
  }

  lemma FragmentStep(w: Width, buf: string, isConnect: bool, sc: Scan, p: nat)
    requires Next(w, buf, isConnect, sc, p)
    requires ParseUrlChar(sc.state, buf[p]).FragmentStart? || ParseUrlChar(sc.state, buf[p]).Fragment?
    ensures Passed(buf, isConnect, Touch(w, sc, ParseUrlChar(sc.state, buf[p]), p), p + 1)
  {
    hide Scanned, Touch, UserinfoChar, Letter, IsUserinfoChar, IsAlpha, PathMayBegin, PathText;
    var s' := ParseUrlChar(sc.state, buf[p]);
    var a, b := FragmentStarts(w, buf, isConnect, sc, p);
    StatesAdvance(sc.state, buf[p]);
    var fields' := Touch(w, sc, s', p).fields;
    if s'.Fragment? {
      Touched(w, sc, s', p);
      assert QueryDone(buf, isConnect, fields', a, b);
      assert FragmentText(buf, fields'[FRAGMENT], b, p + 1);
    } else {
      DelimiterTouched(w, sc, s', p);
      assert QueryDone(buf, isConnect, fields', a, b) && Run(buf, Hashes, b, p + 1);
    }
  }

  /** One byte further. */
  lemma PassedStep(w: Width, buf: string, isConnect: bool, sc: Scan, p: nat)
    requires Next(w, buf, isConnect, sc, p)
    ensures Passed(buf, isConnect, Touch(w, sc, ParseUrlChar(sc.state, buf[p]), p), p + 1)
  {
    hide Passed, Scanned, Touch;
    var s' := ParseUrlChar(sc.state, buf[p]);
    if s'.Path? || s'.QueryStart? {
      PathStep(w, buf, isConnect, sc, p);
    } else if s'.Query? {
      QueryStep(w, buf, isConnect, sc, p);
    } else if s'.FragmentStart? || s'.Fragment? {
      FragmentStep(w, buf, isConnect, sc, p);
    } else if s'.Server? || s'.ServerWithAt? {
      ServerStep(w, buf, isConnect, sc, p);
    } else {
      SchemaStep(w, buf, isConnect, sc, p);
    }
  }

  /** The first pass takes the buffer to pieces as the grammar does. */
  lemma {:induction false} ScanPassed(w: Width, buf: string, isConnect: bool, p: nat)
    requires p <= |buf| && Ample(w, |buf|) && !ScanTo(w, buf, isConnect, p).state.Dead?
    ensures Passed(buf, isConnect, ScanTo(w, buf, isConnect, p), p)
  {
    hide Passed, Touch, ParseUrlChar, Scanned;
    if p == 0 {
      StartPassed(buf, isConnect);
    } else {
      StayedAlive(w, buf, isConnect, p);
      ScanPassed(w, buf, isConnect, p - 1);
      ScanInOrder(w, buf, isConnect, p - 1);
      PassedStep(w, buf, isConnect, ScanTo(w, buf, isConnect, p - 1), p - 1);
    }
  }

  lemma StartPassed(buf: string, isConnect: bool)
    ensures Passed(buf, isConnect, ScanStart(isConnect), 0)
  {
  }

  /** Fields that go through to the second pass: with a schema, or in a CONNECT request, there is a host. */
  ghost predicate HasServer(f: Fields, isConnect: bool)
    requires |f| == FIELDS
  {
    f[HOST].Some? || (f[SCHEMA].None? && !isConnect)
  }

  /** At the end of the buffer, all behind the server part is as the grammar has it. */
  lemma PassedAll(buf: string, isConnect: bool, sc: Scan) returns (s: Seams)
    requires 0 < |buf| && Scanned(sc, |buf|) && Passed(buf, isConnect, sc, |buf|) && !sc.state.Dead?
    requires HasServer(sc.fields, isConnect)
    ensures BackText(buf, sc.fields, s)
    ensures if sc.fields[HOST].Some? then RawServer(buf, isConnect, sc.fields[SCHEMA], sc.fields[HOST], s.serverEnd)
            else s.serverEnd == 0 && sc.fields[PATH].Some?
  {
    hide Scanned, Run;
    Unfound(sc, |buf|);
    var f := sc.fields;
    var a: nat, b: nat := |buf|, |buf|;
    match sc.state {
      case FragmentStart => a, b :| QueryDone(buf, isConnect, f, a, b) && b < |buf| && Run(buf, Hashes, b, |buf|);
      case Fragment => a, b :| QueryDone(buf, isConnect, f, a, b) && FragmentText(buf, f[FRAGMENT], b, |buf|);
      case Query => a := f[QUERY].value.off - 1;
      case QueryStart => a := |buf| - 1;
      case _ =>
    }
    EmptyRun(buf, Hashes, |buf|);
    s := Seams(0, 0, 0, if f[PATH].Some? then f[PATH].value.off else a, a, b);
  }

  lemma EmptyRun(buf: string, k: Kind, p: nat)
    requires p <= |buf|
    ensures Run(buf, k, p, p)
  {
  }
}
