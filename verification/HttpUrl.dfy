/**
 The URL splitter: one pass finds the outer components by the state each byte leads to, a second one takes the
 server part to pieces. Offsets and lengths are kept in sixteen bits.
 */
module HttpUrl {
  import opened Options
  import opened HttpLength
  import opened HttpChars

  datatype UrlState =
    | Dead
    | SpacesBeforeUrl
    | Schema
    | SchemaSlash
    | SchemaSlashSlash
    | ServerStart
    | Server
    | ServerWithAt
    | Path
    | QueryStart
    | Query
    | FragmentStart
    | Fragment

  /** `IS_ALPHA` and so on: the parser's tests, each of which holds of just the characters meant. */
  predicate IsAlpha(ch: char)
    ensures IsAlpha(ch) <==> Letter(ch)
  {
    'a' <= ch <= 'z' || 'A' <= ch <= 'Z'
  }

  predicate IsAlphaNum(ch: char)
    ensures IsAlphaNum(ch) <==> LetterOrDecimal(ch)
  {
    IsAlpha(ch) || IsNum(ch)
  }

  predicate IsHex(ch: char)
    ensures IsHex(ch) <==> Hexadecimal(ch)
  {
    HexadecimalsAre(ch);
    IsNum(ch) || 'a' <= ch <= 'f' || 'A' <= ch <= 'F'
  }

  predicate IsMark(ch: char) {
    ch in "-_.!~*'()"
  }

  predicate IsUserinfoChar(ch: char)
    ensures IsUserinfoChar(ch) <==> UserinfoChar(ch)
  {
    IsAlphaNum(ch) || IsMark(ch) || ch in "%;:&=+$,"
  }

  /** In strict mode: visible ASCII but for the two characters that begin a query or a fragment. */
  predicate IsUrlChar(ch: char)
    ensures IsUrlChar(ch) <==> PathChar(ch)
  {
    '!' <= ch <= '~' && ch != '#' && ch != '?'
  }

  /** In strict mode. */
  predicate IsHostChar(ch: char)
    ensures IsHostChar(ch) <==> NameChar(ch)
  {
    IsAlphaNum(ch) || ch == '.' || ch == '-'
  }

  predicate IsBlank(ch: char) {
    ch == ' ' || ch == '\r' || ch == '\n' || ch == '\t' || ch as int == 12
  }

  /** `parse_url_char` */
  function ParseUrlChar(s: UrlState, ch: char): UrlState {
    if IsBlank(ch) then Dead
    else match s
      case SpacesBeforeUrl => if ch == '/' || ch == '*' then Path else if IsAlpha(ch) then Schema else Dead
      case Schema => if IsAlpha(ch) then Schema else if ch == ':' then SchemaSlash else Dead
      case SchemaSlash => if ch == '/' then SchemaSlashSlash else Dead
      case SchemaSlashSlash => if ch == '/' then ServerStart else Dead
      case ServerWithAt => if ch == '@' then Dead else ParseServerChar(ch)
      case ServerStart | Server => ParseServerChar(ch)
      case Path => if IsUrlChar(ch) then Path else if ch == '?' then QueryStart else if ch == '#' then FragmentStart else Dead
      case QueryStart | Query => if IsUrlChar(ch) || ch == '?' then Query else if ch == '#' then FragmentStart else Dead
      case FragmentStart => if IsUrlChar(ch) || ch == '?' then Fragment else if ch == '#' then FragmentStart else Dead
      case Fragment => if IsUrlChar(ch) || ch == '?' || ch == '#' then Fragment else Dead
      case Dead => Dead
  }

  function ParseServerChar(ch: char): UrlState {
    if ch == '/' then Path
    else if ch == '?' then QueryStart
    else if ch == '@' then ServerWithAt
    else if IsUserinfoChar(ch) || ch == '[' || ch == ']' then Server
    else Dead
  }

  /** The components, numbered as the source does. */
  const SCHEMA: nat := 0
  const HOST: nat := 1
  const PORT: nat := 2
  const PATH: nat := 3
  const QUERY: nat := 4
  const FRAGMENT: nat := 5
  const USERINFO: nat := 6
  const FIELDS: nat := 7

  /** The order of the components in a URL. */
  function Rank(f: nat): nat {
    if f == SCHEMA then 0
    else if f == USERINFO then 1
    else if f == HOST then 2
    else if f == PORT then 3
    else if f == PATH then 4
    else if f == QUERY then 5
    else 6
  }

  datatype Range = Range(off: nat, len: nat)

  /** The components found so far. */
  type Fields = seq<Option<Range>>

  ghost predicate Has(fields: Fields, f: nat) {
    f < |fields| && fields[f].Some?
  }

  /** How offsets and lengths are kept: in sixteen bits, as the source does, or in as many as it takes. */
  datatype Width = Sixteen | Unbounded

  function Fit(w: Width, x: nat): (y: nat)
    ensures y <= x && (w.Sixteen? ==> y <= 0xffff)
  {
    if w.Sixteen? then x % 0x1_0000 else x
  }

  /** Offsets and lengths up to `n` are kept as they are. */
  predicate Ample(w: Width, n: nat) {
    w.Unbounded? || n <= 0xffff
  }

  /** The component the byte that led to this state belongs to; none for delimiters. */
  function FieldOf(s: UrlState): (f: Option<nat>)
    ensures f.Some? ==> f.value < FIELDS
  {
    match s
    case Schema => Some(SCHEMA)
    case Server | ServerWithAt => Some(HOST)
    case Path => Some(PATH)
    case Query => Some(QUERY)
    case Fragment => Some(FRAGMENT)
    case _ => None
  }

  /** Where the first pass stands: the state, the components, the last one touched, and whether an `@` was seen. */
  datatype Scan = Scan(state: UrlState, fields: Fields, last: Option<nat>, foundAt: bool)

  /** The components once the byte at `p` has led to state `s`. */
  function Touch(w: Width, sc: Scan, s: UrlState, p: nat): (r: Scan)
    requires |sc.fields| == FIELDS
    ensures |r.fields| == FIELDS && r.state == s
  {
    match FieldOf(s)
    case None => sc.(state := s)
    case Some(f) =>
      var at := sc.foundAt || s.ServerWithAt?;
      if sc.last == Some(f) && sc.fields[f].Some? then
        Scan(s, sc.fields[f := Some(Range(sc.fields[f].value.off, Fit(w, sc.fields[f].value.len + 1)))], sc.last, at)
      else Scan(s, sc.fields[f := Some(Range(Fit(w, p), 1))], Some(f), at)
  }

  function NoFields(): (fields: Fields)
    ensures |fields| == FIELDS && forall f :: 0 <= f < FIELDS ==> fields[f].None?
  {
    seq(FIELDS, _ => None)
  }

  function ScanStart(isConnect: bool): Scan {
    Scan(if isConnect then ServerStart else SpacesBeforeUrl, NoFields(), None, false)
  }

  /** The first pass over the first `p` bytes. */
  function ScanTo(w: Width, buf: string, isConnect: bool, p: nat): (sc: Scan)
    requires p <= |buf|
    ensures |sc.fields| == FIELDS
  {
    if p == 0 then ScanStart(isConnect)
    else
      var sc := ScanTo(w, buf, isConnect, p - 1);
      Touch(w, sc, ParseUrlChar(sc.state, buf[p - 1]), p - 1)
  }

  // ---------------------------------------------------------------- what the first pass finds

  function End(r: Range): nat {
    r.off + r.len
  }

  /** The rank of the last component that may have been found in this state. */
  function Bound(s: UrlState): int {
    match s
    case SpacesBeforeUrl => -1
    case Schema | SchemaSlash | SchemaSlashSlash | Dead => 0
    case ServerStart => 1
    case Server | ServerWithAt => 2
    case Path | QueryStart => 4
    case Query | FragmentStart => 5
    case Fragment => 6
  }

  /** Components are non-empty, within the first `p` bytes, and in order without overlap. */
  ghost predicate InOrder(fields: Fields, p: nat) {
    && (forall f: nat :: Has(fields, f) ==> fields[f].value.len >= 1 && End(fields[f].value) <= p)
    && (forall f: nat, g: nat :: Has(fields, f) && Has(fields, g) && Rank(f) < Rank(g) ==> Before(fields, f, g))
  }

  ghost predicate Before(fields: Fields, f: nat, g: nat)
    requires Has(fields, f) && Has(fields, g)
  {
    End(fields[f].value) <= fields[g].value.off
  }

  ghost predicate Scanned(sc: Scan, p: nat) {
    && |sc.fields| == FIELDS && InOrder(sc.fields, p)
    && sc.fields[USERINFO].None? && sc.fields[PORT].None?
    && (forall f: nat :: Has(sc.fields, f) ==> Rank(f) <= Bound(sc.state))
    && (sc.last.Some? ==> Has(sc.fields, sc.last.value))
    && (FieldOf(sc.state).Some? ==> sc.last == FieldOf(sc.state) && EndsAt(sc.fields, FieldOf(sc.state).value, p))
  }

  ghost predicate EndsAt(fields: Fields, f: nat, p: nat) {
    Has(fields, f) && End(fields[f].value) == p
  }

  /** A byte either stays within its component, or begins a later one, or is a delimiter. */
  lemma StatesAdvance(s: UrlState, ch: char)
    requires !ParseUrlChar(s, ch).Dead?
    ensures Advances(s, ParseUrlChar(s, ch))
  {
  }

  /** `s'` may follow `s`. */
  ghost predicate Advances(s: UrlState, s': UrlState) {
    && Bound(s') >= Bound(s)
    && (FieldOf(s').Some? ==>
          Bound(s') == Rank(FieldOf(s').value) && (FieldOf(s') == FieldOf(s) || Rank(FieldOf(s').value) > Bound(s)))
  }

  lemma ComponentGrows(fields: Fields, f: nat, p: nat, fields': Fields)
    requires InOrder(fields, p) && EndsAt(fields, f, p)
    requires forall g: nat :: Has(fields, g) ==> Rank(g) <= Rank(f)
    requires fields' == fields[f := Some(Range(fields[f].value.off, fields[f].value.len + 1))]
    ensures InOrder(fields', p + 1) && EndsAt(fields', f, p + 1)
  {
    forall g: nat, h: nat | Has(fields', g) && Has(fields', h) && Rank(g) < Rank(h) ensures Before(fields', g, h) {
      assert Has(fields, g) && Has(fields, h) && Before(fields, g, h);
    }
    forall g: nat | Has(fields', g) ensures fields'[g].value.len >= 1 && End(fields'[g].value) <= p + 1 {
      assert Has(fields, g);
    }
  }

  lemma ComponentBegins(fields: Fields, f: nat, p: nat, fields': Fields)
    requires InOrder(fields, p) && f < |fields|
    requires forall g: nat :: Has(fields, g) ==> Rank(g) < Rank(f)
    requires fields' == fields[f := Some(Range(p, 1))]
    ensures InOrder(fields', p + 1) && EndsAt(fields', f, p + 1)
  {
    forall g: nat, h: nat | Has(fields', g) && Has(fields', h) && Rank(g) < Rank(h) ensures Before(fields', g, h) {
      if h != f {
        assert Has(fields, h);
      }
      assert Has(fields, g);
      assert h != f ==> Before(fields, g, h);
    }
    forall g: nat | Has(fields', g) ensures fields'[g].value.len >= 1 && End(fields'[g].value) <= p + 1 {
      assert g != f ==> Has(fields, g);
    }
  }

  lemma TouchKeepsScanned(w: Width, sc: Scan, s': UrlState, p: nat)
    requires Scanned(sc, p) && Ample(w, p + 1) && Advances(sc.state, s')
    ensures Scanned(Touch(w, sc, s', p), p + 1)
  {
    hide InOrder, Bound;
    InOrderLonger(sc.fields, p);
    if FieldOf(s').Some? {
      var f := FieldOf(s').value;
      var fields' := Touch(w, sc, s', p).fields;
      if sc.last == Some(f) && sc.fields[f].Some? {
        LastIsHere(w, sc, s', p);
        ComponentGrows(sc.fields, f, p, fields');
      } else {
        ComponentBegins(sc.fields, f, p, fields');
      }
      assert forall g: nat :: Has(fields', g) ==> Has(sc.fields, g) || g == f;
    }
  }

  lemma InOrderLonger(fields: Fields, p: nat)
    requires InOrder(fields, p)
    ensures InOrder(fields, p + 1)
  {
  }

  /** When the last component touched is the next one too, it ends here. */
  lemma LastIsHere(w: Width, sc: Scan, s': UrlState, p: nat)
    requires Scanned(sc, p) && Ample(w, p + 1) && Advances(sc.state, s') && FieldOf(s').Some? && sc.last == FieldOf(s')
    ensures FieldOf(s') == FieldOf(sc.state)
    ensures EndsAt(sc.fields, sc.last.value, p)
    ensures Fit(w, sc.fields[sc.last.value].value.len + 1) == sc.fields[sc.last.value].value.len + 1
  {
  }

  /** After a pass that met no bad byte, the components are non-empty, in bounds, and in order. */
  lemma {:induction false} ScanInOrder(w: Width, buf: string, isConnect: bool, p: nat)
    requires p <= |buf| && Ample(w, |buf|) && !ScanTo(w, buf, isConnect, p).state.Dead?
    ensures Scanned(ScanTo(w, buf, isConnect, p), p)
  {
    hide Scanned, Touch, Advances, ParseUrlChar;
    if p == 0 {
      StartScanned(isConnect);
    } else {
      StayedAlive(w, buf, isConnect, p);
      ScanInOrder(w, buf, isConnect, p - 1);
      var sc := ScanTo(w, buf, isConnect, p - 1);
      StatesAdvance(sc.state, buf[p - 1]);
      TouchKeepsScanned(w, sc, ParseUrlChar(sc.state, buf[p - 1]), p - 1);
    }
  }

  lemma StartScanned(isConnect: bool)
    ensures Scanned(ScanStart(isConnect), 0)
  {
  }

  /** A dead state is left no more. */
  lemma StayedAlive(w: Width, buf: string, isConnect: bool, p: nat)
    requires 0 < p <= |buf| && !ScanTo(w, buf, isConnect, p).state.Dead?
    ensures !ScanTo(w, buf, isConnect, p - 1).state.Dead?
    ensures !ParseUrlChar(ScanTo(w, buf, isConnect, p - 1).state, buf[p - 1]).Dead?
  {
  }

  /**
   Beyond sixteen bits the lengths wrap: a slash and 65535 letters are a path of length nought.
   */
  lemma {:induction false} LongPathWraps(w: Width, buf: string, p: nat)
    requires 1 <= p <= |buf| && buf[0] == '/' && forall i :: 1 <= i < p ==> buf[i] == 'a'
    ensures var sc := ScanTo(w, buf, false, p);
            sc.state == Path && sc.last == Some(PATH) && sc.fields[PATH] == Some(Range(0, Fit(w, p)))
  {
    hide FieldOf, ParseUrlChar, Touch;
    if p > 1 {
      LongPathWraps(w, buf, p - 1);
      PathGoesOn(w, ScanTo(w, buf, false, p - 1), p - 1);
    } else {
      PathGoesOn(w, ScanStart(false), 0);
    }
  }

  lemma PathGoesOn(w: Width, sc: Scan, p: nat)
    requires |sc.fields| == FIELDS
    ensures ParseUrlChar(SpacesBeforeUrl, '/') == Path && ParseUrlChar(Path, 'a') == Path
    ensures sc.last.None? && p == 0 ==>
      Touch(w, sc, Path, p).last == Some(PATH) && Touch(w, sc, Path, p).fields[PATH] == Some(Range(0, Fit(w, 1)))
    ensures sc.last == Some(PATH) && sc.fields[PATH] == Some(Range(0, Fit(w, p))) ==>
      Touch(w, sc, Path, p).last == Some(PATH) && Touch(w, sc, Path, p).fields[PATH] == Some(Range(0, Fit(w, p + 1)))
  {
  }

  // ---------------------------------------------------------------- the server part

  datatype HostState =
    | HostDead
    | UserinfoStart
    | Userinfo
    | HostStart
    | V6Start
    | HostName
    | V6
    | V6End
    | V6ZoneStart
    | V6Zone
    | PortStart
    | PortDigits

  /** `http_parse_host_char` */
  function ParseHostChar(s: HostState, ch: char): HostState {
    match s
    case Userinfo | UserinfoStart => if ch == '@' then HostStart else if IsUserinfoChar(ch) then Userinfo else HostDead
    case HostStart => if ch == '[' then V6Start else if IsHostChar(ch) then HostName else HostDead
    case HostName => if IsHostChar(ch) then HostName else if ch == ':' then PortStart else HostDead
    case V6End => if ch == ':' then PortStart else HostDead
    case V6 => if ch == ']' then V6End else if IsV6Char(ch) then V6 else if ch == '%' then V6ZoneStart else HostDead
    case V6Start => if IsV6Char(ch) then V6 else HostDead
    case V6Zone => if ch == ']' then V6End else if IsZoneChar(ch) then V6Zone else HostDead
    case V6ZoneStart => if IsZoneChar(ch) then V6Zone else HostDead
    case PortDigits | PortStart => if IsNum(ch) then PortDigits else HostDead
    case HostDead => HostDead
  }

  predicate IsV6Char(ch: char)
    ensures IsV6Char(ch) <==> V6Char(ch)
  {
    IsHex(ch) || ch == ':' || ch == '.'
  }

  /** A zone identifier, as RFC 6874 has it. */
  predicate IsZoneChar(ch: char)
    ensures IsZoneChar(ch) <==> ZoneChar(ch)
  {
    IsAlphaNum(ch) || ch in "%.-_~"
  }

  datatype HostScan = HostScan(state: HostState, fields: Fields)

  function Longer(w: Width, r: Option<Range>): Option<Range> {
    match r
    case None => None
    case Some(r) => Some(Range(r.off, Fit(w, r.len + 1)))
  }

  /** The components once the byte at `p` has led to host state `s`. */
  function HostTouch(w: Width, h: HostScan, s: HostState, p: nat): (r: HostScan)
    requires |h.fields| == FIELDS
    ensures |r.fields| == FIELDS && r.state == s
  {
    var f := h.fields;
    var started := Some(Range(Fit(w, p), 1));
    match s
    case HostName | V6 =>
      var off := if h.state != s then Fit(w, p) else if f[HOST].Some? then f[HOST].value.off else 0;
      var len := if f[HOST].Some? then f[HOST].value.len else 0;
      HostScan(s, f[HOST := Some(Range(off, Fit(w, len + 1)))])
    case V6ZoneStart | V6Zone => HostScan(s, f[HOST := Longer(w, f[HOST])])
    case PortDigits => HostScan(s, f[PORT := if h.state != s then started else Longer(w, f[PORT])])
    case Userinfo => HostScan(s, f[USERINFO := if h.state != s then started else Longer(w, f[USERINFO])])
    case _ => h.(state := s)
  }

  /** The host's length starts from nought again. */
  function HostBegin(fields: Fields, foundAt: bool): (r: HostScan)
    requires |fields| == FIELDS && Has(fields, HOST)
    ensures |r.fields| == FIELDS
  {
    HostScan(if foundAt then UserinfoStart else HostStart, fields[HOST := Some(Range(fields[HOST].value.off, 0))])
  }

  /** The second pass over the bytes from `lo` to `p`. */
  function HostTo(w: Width, buf: string, begin: HostScan, lo: nat, p: nat): (h: HostScan)
    requires lo <= p <= |buf| && |begin.fields| == FIELDS
    ensures |h.fields| == FIELDS
    decreases p
  {
    if p == lo then begin
    else
      var h := HostTo(w, buf, begin, lo, p - 1);
      HostTouch(w, h, ParseHostChar(h.state, buf[p - 1]), p - 1)
  }

  /** A host state the server part may end in. */
  predicate HostMayEnd(s: HostState) {
    s.HostName? || s.V6End? || s.PortDigits?
  }

  /** The host lies behind `lo` and the userinfo, and is not empty. */
  ghost predicate HostPlaced(f: Fields, lo: nat, p: nat)
    requires |f| == FIELDS
  {
    && Has(f, HOST) && f[HOST].value.len >= 1 && lo <= f[HOST].value.off && End(f[HOST].value) <= p
    && (Has(f, USERINFO) ==> Before(f, USERINFO, HOST))
  }

  ghost predicate NoHostYet(f: Fields)
    requires |f| == FIELDS
  {
    Has(f, HOST) && f[HOST].value.len == 0 && f[PORT].None?
  }

  ghost predicate PortPlaced(buf: string, f: Fields, p: nat)
    requires |f| == FIELDS
  {
    && EndsAt(f, PORT, p) && f[PORT].value.len >= 1 && p <= |buf|
    && (forall i :: f[PORT].value.off <= i < p ==> Decimal(buf[i]))
  }

  ghost predicate HostScanned(buf: string, base: Fields, h: HostScan, lo: nat, p: nat)
  {
    && |base| == |h.fields| == FIELDS && lo <= p <= |buf|
    && (forall f: nat :: f < FIELDS && f != HOST && f != PORT && f != USERINFO ==> h.fields[f] == base[f])
    && (Has(h.fields, USERINFO) ==>
          lo <= h.fields[USERINFO].value.off && h.fields[USERINFO].value.len >= 1 && End(h.fields[USERINFO].value) <= p)
    && match h.state
       case UserinfoStart => h.fields[USERINFO].None? && NoHostYet(h.fields)
       case Userinfo => EndsAt(h.fields, USERINFO, p) && NoHostYet(h.fields)
       case HostStart | V6Start => NoHostYet(h.fields)
       case HostName | V6 | V6ZoneStart | V6Zone => HostPlaced(h.fields, lo, p) && EndsAt(h.fields, HOST, p) && h.fields[PORT].None?
       case V6End | PortStart => HostPlaced(h.fields, lo, p) && h.fields[PORT].None?
       case PortDigits => HostPlaced(h.fields, lo, p) && PortPlaced(buf, h.fields, p) && Before(h.fields, HOST, PORT)
       case HostDead => true
  }

  lemma HostTouchKeeps(w: Width, buf: string, base: Fields, h: HostScan, lo: nat, p: nat)
    requires HostScanned(buf, base, h, lo, p) && p < |buf| && Ample(w, |buf|) && !h.state.HostDead?
    ensures HostScanned(buf, base, HostTouch(w, h, ParseHostChar(h.state, buf[p]), p), lo, p + 1)
  {
    hide IsUserinfoChar, IsHostChar, IsV6Char, IsZoneChar, HostScanned;
    var s := ParseHostChar(h.state, buf[p]);
    HostMoves(h.state, buf[p]);
    if s.Userinfo? || s.PortDigits? {
      OtherTouched(w, buf, base, h, lo, p, s);
    } else {
      HostTouched(w, buf, base, h, lo, p, s);
    }
  }

  /** Which host states may follow which. */
  ghost predicate HostFollows(s: HostState, s': HostState) {
    match s'
    case HostDead => true
    case UserinfoStart => false
    case Userinfo => s.Userinfo? || s.UserinfoStart?
    case HostStart => s.Userinfo? || s.UserinfoStart?
    case V6Start => s.HostStart?
    case HostName => s.HostStart? || s.HostName?
    case V6 => s.V6Start? || s.V6?
    case V6End => s.V6? || s.V6Zone?
    case V6ZoneStart => s.V6?
    case V6Zone => s.V6ZoneStart? || s.V6Zone?
    case PortStart => s.HostName? || s.V6End?
    case PortDigits => s.PortStart? || s.PortDigits?
  }

  lemma HostMoves(s: HostState, ch: char)
    ensures HostFollows(s, ParseHostChar(s, ch))
    ensures ParseHostChar(s, ch).PortDigits? ==> Decimal(ch)
  {
  }

  lemma HostTouched(w: Width, buf: string, base: Fields, h: HostScan, lo: nat, p: nat, s: HostState)
    requires HostScanned(buf, base, h, lo, p) && p < |buf| && Ample(w, |buf|) && !h.state.HostDead?
    requires HostFollows(h.state, s) && !s.Userinfo? && !s.PortDigits?
    ensures HostScanned(buf, base, HostTouch(w, h, s, p), lo, p + 1)
  {
    hide IsNum, Decimal, DecimalDigit;
  }

  lemma OtherTouched(w: Width, buf: string, base: Fields, h: HostScan, lo: nat, p: nat, s: HostState)
    requires HostScanned(buf, base, h, lo, p) && p < |buf| && Ample(w, |buf|) && !h.state.HostDead?
    requires HostFollows(h.state, s) && (s.Userinfo? || s.PortDigits?) && (s.PortDigits? ==> Decimal(buf[p]))
    ensures HostScanned(buf, base, HostTouch(w, h, s, p), lo, p + 1)
  {
    hide IsNum, Decimal, DecimalDigit;
  }

  lemma {:induction false} HostToScanned(w: Width, buf: string, base: Fields, foundAt: bool, lo: nat, p: nat)
    requires |base| == FIELDS && Has(base, HOST) && base[USERINFO].None? && base[PORT].None? && lo <= p <= |buf| && Ample(w, |buf|)
    ensures HostScanned(buf, base, HostTo(w, buf, HostBegin(base, foundAt), lo, p), lo, p)
    decreases p
  {
    hide ParseHostChar, HostTouch, HostScanned;
    if p == lo {
      HostStarts(buf, base, foundAt, lo);
    } else {
      HostToScanned(w, buf, base, foundAt, lo, p - 1);
      var h := HostTo(w, buf, HostBegin(base, foundAt), lo, p - 1);
      if !h.state.HostDead? {
        HostTouchKeeps(w, buf, base, h, lo, p - 1);
      } else {
        HostStaysDead(w, buf, base, h, lo, p - 1);
      }
    }
  }

  lemma HostStarts(buf: string, base: Fields, foundAt: bool, lo: nat)
    requires |base| == FIELDS && Has(base, HOST) && base[USERINFO].None? && base[PORT].None? && lo <= |buf|
    ensures HostScanned(buf, base, HostBegin(base, foundAt), lo, lo)
  {
  }

  lemma HostStaysDead(w: Width, buf: string, base: Fields, h: HostScan, lo: nat, p: nat)
    requires HostScanned(buf, base, h, lo, p) && p < |buf| && h.state.HostDead?
    ensures HostScanned(buf, base, HostTouch(w, h, ParseHostChar(h.state, buf[p]), p), lo, p + 1)
  {
  }

  // ---------------------------------------------------------------- sixteen bits

  function Wrapped(r: Option<Range>): Option<Range> {
    match r
    case None => None
    case Some(r) => Some(Range(Fit(Sixteen, r.off), Fit(Sixteen, r.len)))
  }

  function WrapFields(fields: Fields): (r: Fields)
    ensures |r| == |fields|
  {
    seq(|fields|, i requires 0 <= i < |fields| => Wrapped(fields[i]))
  }

  function WrapScan(sc: Scan): Scan {
    sc.(fields := WrapFields(sc.fields))
  }

  function WrapHost(h: HostScan): HostScan {
    h.(fields := WrapFields(h.fields))
  }

  lemma WrapsPlusOne(x: nat)
    ensures Fit(Sixteen, Fit(Sixteen, x) + 1) == Fit(Sixteen, x + 1)
  {
  }

  lemma TouchWraps(sc: Scan, s: UrlState, p: nat)
    requires |sc.fields| == FIELDS
    ensures Touch(Sixteen, WrapScan(sc), s, p) == WrapScan(Touch(Unbounded, sc, s, p))
  {
    hide Fit;
    assert Fit(Sixteen, 1) == 1 && Fit(Unbounded, p) == p by {
      FitSmall(p);
    }
    if FieldOf(s).Some? {
      var f := FieldOf(s).value;
      if sc.fields[f].Some? {
        var len := sc.fields[f].value.len;
        FitSmall(len + 1);
        WrapsPlusOne(len);
      }
      assert Touch(Sixteen, WrapScan(sc), s, p).fields == WrapFields(Touch(Unbounded, sc, s, p).fields);
    }
  }

  lemma FitSmall(p: nat)
    ensures Fit(Sixteen, 1) == 1 && Fit(Sixteen, 0) == 0 && Fit(Unbounded, p) == p
    ensures Fit(Sixteen, Fit(Sixteen, p)) == Fit(Sixteen, p)
  {
  }

  /** Whatever the length of the buffer, each range noted is the component's offset and length modulo 65536. */
  lemma {:induction false} ScanWraps(buf: string, isConnect: bool, p: nat)
    requires p <= |buf|
    ensures ScanTo(Sixteen, buf, isConnect, p) == WrapScan(ScanTo(Unbounded, buf, isConnect, p))
  {
    hide Touch;
    if p == 0 {
      assert WrapFields(NoFields()) == NoFields();
    } else {
      ScanWraps(buf, isConnect, p - 1);
      var sc := ScanTo(Unbounded, buf, isConnect, p - 1);
      TouchWraps(sc, ParseUrlChar(sc.state, buf[p - 1]), p - 1);
    }
  }

  lemma LongerWraps(r: Option<Range>)
    ensures Longer(Sixteen, Wrapped(r)) == Wrapped(Longer(Unbounded, r))
  {
    if r.Some? {
      WrapsPlusOne(r.value.len);
    }
  }

  lemma HostTouchWraps(h: HostScan, s: HostState, p: nat)
    requires |h.fields| == FIELDS
    ensures HostTouch(Sixteen, WrapHost(h), s, p) == WrapHost(HostTouch(Unbounded, h, s, p))
  {
    hide Longer, Fit;
    FitSmall(p);
    FitSmall(1);
    LongerWraps(h.fields[HOST]);
    LongerWraps(h.fields[PORT]);
    LongerWraps(h.fields[USERINFO]);
    if h.fields[HOST].Some? {
      FitSmall(h.fields[HOST].value.len + 1);
      WrapsPlusOne(h.fields[HOST].value.len);
      FitSmall(h.fields[HOST].value.off);
    }
    assert HostTouch(Sixteen, WrapHost(h), s, p).fields == WrapFields(HostTouch(Unbounded, h, s, p).fields);
  }

  /** So does the second pass, over the bytes that the ranges so kept lead it to. */
  lemma {:induction false} HostWraps(buf: string, begin: HostScan, lo: nat, p: nat)
    requires lo <= p <= |buf| && |begin.fields| == FIELDS
    ensures HostTo(Sixteen, buf, WrapHost(begin), lo, p) == WrapHost(HostTo(Unbounded, buf, begin, lo, p))
    decreases p
  {
    hide HostTouch;
    if p > lo {
      HostWraps(buf, begin, lo, p - 1);
      var h := HostTo(Unbounded, buf, begin, lo, p - 1);
      HostTouchWraps(h, ParseHostChar(h.state, buf[p - 1]), p - 1);
    }
  }

  /** However they are kept, the ranges lie within the buffer. */
  lemma ScanBounds(w: Width, buf: string, isConnect: bool)
    requires !ScanTo(w, buf, isConnect, |buf|).state.Dead?
    ensures var f := ScanTo(w, buf, isConnect, |buf|).fields;
            f[USERINFO].None? && f[PORT].None? && forall i :: 0 <= i < FIELDS && f[i].Some? ==> End(f[i].value) <= |buf|
    ensures w.Sixteen? ==> WrapFields(ScanTo(w, buf, isConnect, |buf|).fields) == ScanTo(w, buf, isConnect, |buf|).fields
  {
    hide ScanTo;
    ScanWraps(buf, isConnect, |buf|);
    ScanInOrder(Unbounded, buf, isConnect, |buf|);
    var f := ScanTo(Unbounded, buf, isConnect, |buf|).fields;
    forall i | 0 <= i < FIELDS && f[i].Some? ensures End(f[i].value) <= |buf| {
      assert Has(f, i);
    }
  }

  // ---------------------------------------------------------------- the whole URL

  /** The port while its digits are read: none once it is beyond sixteen bits. */
  function PortTo(buf: string, off: nat, p: nat): Option<int>
    requires off <= p <= |buf|
    decreases p
  {
    if p == off then Some(0)
    else match PortTo(buf, off, p - 1)
      case None => None
      case Some(v) =>
        // Unsigned: below nought it would be far too large.
        var next := v * 10 + (buf[p - 1] as int - '0' as int);
        if next > 0xffff || next < 0 then None else Some(next)
  }

  lemma {:induction false} PortIsDecimal(buf: string, off: nat, p: nat)
    requires off <= p <= |buf| && forall i :: off <= i < p ==> Decimal(buf[i])
    ensures AllNum(buf[off..p])
    ensures PortTo(buf, off, p) == if DecValue(buf[off..p]) <= 0xffff then Some(DecValue(buf[off..p]) as int) else None
    decreases p
  {
    if p > off {
      PortIsDecimal(buf, off, p - 1);
      assert buf[off..p][..p - off - 1] == buf[off..p - 1];
    }
  }

  datatype Url = Url(fields: Fields, port: int)

  /** `http_parse_host` */
  function SplitHost(w: Width, buf: string, sc: Scan): Option<Fields>
    requires |sc.fields| == FIELDS && Has(sc.fields, HOST) && End(sc.fields[HOST].value) <= |buf|
  {
    var r := sc.fields[HOST].value;
    var h := HostTo(w, buf, HostBegin(sc.fields, sc.foundAt), r.off, End(r));
    if HostMayEnd(h.state) then Some(h.fields) else None
  }

  /** What is left to check once the components are known. */
  function CheckUrl(buf: string, fields: Fields, isConnect: bool): Option<Url>
    requires |fields| == FIELDS && (Has(fields, PORT) ==> End(fields[PORT].value) <= |buf|)
  {
    if isConnect && !(forall f :: 0 <= f < FIELDS ==> (fields[f].Some? <==> f == HOST || f == PORT)) then None
    else if fields[PORT].None? then Some(Url(fields, 0))
    else match PortTo(buf, fields[PORT].value.off, End(fields[PORT].value))
      case None => None
      case Some(v) => Some(Url(fields, v))
  }

  /** However they are kept, the pieces of the server part lie within the buffer. */
  lemma HostBounds(w: Width, buf: string, sc: Scan)
    requires |sc.fields| == FIELDS && Has(sc.fields, HOST) && End(sc.fields[HOST].value) <= |buf|
    requires sc.fields[USERINFO].None? && sc.fields[PORT].None? && (w.Sixteen? ==> WrapFields(sc.fields) == sc.fields)
    ensures SplitHost(w, buf, sc).Some? ==>
              var f := SplitHost(w, buf, sc).value;
              |f| == FIELDS && (Has(f, PORT) ==> End(f[PORT].value) <= |buf|)
  {
    hide HostTo;
    var r := sc.fields[HOST].value;
    var begin := HostBegin(sc.fields, sc.foundAt);
    HostToScanned(Unbounded, buf, sc.fields, sc.foundAt, r.off, End(r));
    if w.Sixteen? {
      HostWraps(buf, begin, r.off, End(r));
      FitSmall(0);
      assert WrapHost(begin) == begin;
    }
  }

  /** `http_parser_parse_url` */
  function SplitUrl(w: Width, buf: string, isConnect: bool): Option<Url> {
    var sc := ScanTo(w, buf, isConnect, |buf|);
    if |buf| == 0 || sc.state.Dead? then None
    else
      ScanBounds(w, buf, isConnect);
      if sc.fields[SCHEMA].Some? && sc.fields[HOST].None? then None
      else if sc.fields[HOST].None? then CheckUrl(buf, sc.fields, isConnect)
      else
        HostBounds(w, buf, sc);
        match SplitHost(w, buf, sc)
        case None => None
        case Some(fields) => CheckUrl(buf, fields, isConnect)
  }

  /** Taking the server part to pieces keeps everything in order. */
  lemma SplitHostInOrder(w: Width, buf: string, sc: Scan)
    requires Ample(w, |buf|) && Scanned(sc, |buf|) && Has(sc.fields, HOST)
    ensures End(sc.fields[HOST].value) <= |buf|
    ensures SplitHost(w, buf, sc).Some? ==>
      var fields := SplitHost(w, buf, sc).value;
      |fields| == FIELDS && InOrder(fields, |buf|) && Has(fields, HOST)
      && (Has(fields, PORT) ==> PortPlaced(buf, fields, End(fields[PORT].value)))
  {
    hide HostTo, HostTouch, ParseHostChar;
    var r := sc.fields[HOST].value;
    var lo, hi := r.off, End(r);
    HostToScanned(w, buf, sc.fields, sc.foundAt, lo, hi);
    var h := HostTo(w, buf, HostBegin(sc.fields, sc.foundAt), lo, hi);
    if HostMayEnd(h.state) {
      PiecesInOrder(buf, sc.fields, h, lo, hi);
    }
  }

  /** Between `lo` and `hi`: userinfo, host and port, in this order. */
  lemma PiecesInOrder(buf: string, base: Fields, h: HostScan, lo: nat, hi: nat)
    requires HostScanned(buf, base, h, lo, hi) && HostMayEnd(h.state)
    requires InOrder(base, |buf|) && Has(base, HOST) && base[HOST].value == Range(lo, hi - lo)
    ensures InOrder(h.fields, |buf|)
  {
    var f := h.fields;
    forall a: nat, b: nat | Has(f, a) && Has(f, b) && Rank(a) < Rank(b) ensures Before(f, a, b) {
      if Rank(a) < 1 {
        assert Before(base, a, HOST);
        if Rank(b) > 3 {
          assert Before(base, a, b);
        }
      } else if Rank(b) > 3 {
        if Rank(a) > 3 {
          assert Before(base, a, b);
        } else {
          assert Before(base, HOST, b);
        }
      }
    }
    forall a: nat | Has(f, a) ensures f[a].value.len >= 1 && End(f[a].value) <= |buf| {
      if Rank(a) < 1 || Rank(a) > 3 {
        assert Has(base, a);
      }
    }
  }

  /**
   Every component of a URL that is accepted is non-empty and within the buffer; the components do not overlap
   and stand in the order schema, userinfo, host, port, path, query, fragment; the port is the decimal value of
   its digits; and a schema never comes without a host.
   */
  lemma SplitUrlSound(w: Width, buf: string, isConnect: bool)
    requires Ample(w, |buf|) && SplitUrl(w, buf, isConnect).Some?
    ensures var u := SplitUrl(w, buf, isConnect).value;
            && |u.fields| == FIELDS && InOrder(u.fields, |buf|)
            && (Has(u.fields, SCHEMA) ==> Has(u.fields, HOST))
            && (Has(u.fields, PORT) ==> PortMatches(buf, u.fields[PORT].value, u.port))
            && (!Has(u.fields, PORT) ==> u.port == 0)
            && (isConnect ==> Has(u.fields, HOST) && Has(u.fields, PORT) && forall f: nat :: Has(u.fields, f) ==> f == HOST || f == PORT)
  {
    hide ScanTo, SplitHost, PortTo, InOrder, PortPlaced;
    var sc := ScanTo(w, buf, isConnect, |buf|);
    ScanInOrder(w, buf, isConnect, |buf|);
    if sc.fields[HOST].Some? {
      SplitHostInOrder(w, buf, sc);
      SchemaStays(w, buf, sc);
      var fields := SplitHost(w, buf, sc).value;
      if Has(fields, PORT) {
        PortDecimal(buf, fields);
      }
    }
  }

  ghost predicate PortMatches(buf: string, r: Range, port: int) {
    && End(r) <= |buf| && AllNum(buf[r.off..End(r)]) && port == DecValue(buf[r.off..End(r)]) && 0 <= port <= 0xffff
  }

  lemma PortDecimal(buf: string, fields: Fields)
    requires |fields| == FIELDS && Has(fields, PORT) && PortPlaced(buf, fields, End(fields[PORT].value))
    ensures var r := fields[PORT].value;
            End(r) <= |buf| && (PortTo(buf, r.off, End(r)).Some? ==> PortMatches(buf, r, PortTo(buf, r.off, End(r)).value))
  {
    PortIsDecimal(buf, fields[PORT].value.off, End(fields[PORT].value));
  }

  lemma SchemaStays(w: Width, buf: string, sc: Scan)
    requires Ample(w, |buf|) && Scanned(sc, |buf|) && Has(sc.fields, HOST) && End(sc.fields[HOST].value) <= |buf|
    ensures SplitHost(w, buf, sc).Some? ==>
      |SplitHost(w, buf, sc).value| == FIELDS && SplitHost(w, buf, sc).value[SCHEMA] == sc.fields[SCHEMA]
  {
    hide HostTo, HostTouch, ParseHostChar;
    HostToScanned(w, buf, sc.fields, sc.foundAt, sc.fields[HOST].value.off, End(sc.fields[HOST].value));
  }

  // ---------------------------------------------------------------- the loops

  /** The first loop, up to the first bad byte. */
  method FirstPass(w: Width, buf: string, isConnect: bool) returns (sc: Scan)
    ensures sc.state.Dead? <==> ScanTo(w, buf, isConnect, |buf|).state.Dead?
    ensures !sc.state.Dead? ==> sc == ScanTo(w, buf, isConnect, |buf|)
  {
    hide Touch, ParseUrlChar;
    sc := ScanStart(isConnect);
    for p := 0 to |buf|
      invariant sc == ScanTo(w, buf, isConnect, p) && !sc.state.Dead?
    {
      var s := ParseUrlChar(sc.state, buf[p]);
      sc := Touch(w, sc, s, p);
      if s.Dead? {
        DeadForGood(w, buf, isConnect, p + 1, |buf|);
        return;
      }
    }
  }

  lemma {:induction false} DeadForGood(w: Width, buf: string, isConnect: bool, p: nat, q: nat)
    requires p <= q <= |buf| && ScanTo(w, buf, isConnect, p).state.Dead?
    ensures ScanTo(w, buf, isConnect, q).state.Dead?
    decreases q
  {
    if p < q {
      DeadForGood(w, buf, isConnect, p, q - 1);
    }
  }

  /** The loop over the server part. */
  method HostPass(w: Width, buf: string, sc: Scan) returns (r: Option<Fields>)
    requires |sc.fields| == FIELDS && Has(sc.fields, HOST) && End(sc.fields[HOST].value) <= |buf|
    ensures r == SplitHost(w, buf, sc)
  {
    hide HostTouch, ParseHostChar;
    var lo, hi := sc.fields[HOST].value.off, End(sc.fields[HOST].value);
    var begin := HostBegin(sc.fields, sc.foundAt);
    var h := begin;
    for p := lo to hi
      invariant h == HostTo(w, buf, begin, lo, p) && !h.state.HostDead?
    {
      var s := ParseHostChar(h.state, buf[p]);
      h := HostTouch(w, h, s, p);
      if s.HostDead? {
        HostDeadForGood(w, buf, begin, lo, p + 1, hi);
        return None;
      }
    }
    r := if HostMayEnd(h.state) then Some(h.fields) else None;
  }

  lemma {:induction false} HostDeadForGood(w: Width, buf: string, begin: HostScan, lo: nat, p: nat, q: nat)
    requires lo <= p <= q <= |buf| && |begin.fields| == FIELDS && HostTo(w, buf, begin, lo, p).state.HostDead?
    ensures HostTo(w, buf, begin, lo, q).state.HostDead?
    decreases q
  {
    if p < q {
      HostDeadForGood(w, buf, begin, lo, p, q - 1);
    }
  }

  /** The loop over the port's digits. */
  method PortPass(buf: string, off: nat, end: nat) returns (r: Option<int>)
    requires off <= end <= |buf|
    ensures r == PortTo(buf, off, end)
  {
    var v := 0;
    for p := off to end
      invariant PortTo(buf, off, p) == Some(v)
    {
      v := v * 10;
      v := v + (buf[p] as int - '0' as int);
      if v > 0xffff || v < 0 {
        PortTooLarge(buf, off, p + 1, end);
        return None;
      }
    }
    r := Some(v);
  }

  lemma {:induction false} PortTooLarge(buf: string, off: nat, p: nat, q: nat)
    requires off <= p <= q <= |buf| && PortTo(buf, off, p).None?
    ensures PortTo(buf, off, q).None?
    decreases q
  {
    if p < q {
      PortTooLarge(buf, off, p, q - 1);
    }
  }

  method ParseUrl(buf: string, isConnect: bool) returns (r: Option<Url>)
    ensures r == SplitUrl(Sixteen, buf, isConnect)
  {
    hide ScanTo, SplitHost, PortTo, WrapFields;
    if |buf| == 0 {
      return None;
    }
    var sc := FirstPass(Sixteen, buf, isConnect);
    if sc.state.Dead? {
      return None;
    }
    ScanBounds(Sixteen, buf, isConnect);
    if sc.fields[SCHEMA].Some? && sc.fields[HOST].None? {
      return None;
    }
    var fields := sc.fields;
    if sc.fields[HOST].Some? {
      HostBounds(Sixteen, buf, sc);
      var pieces := HostPass(Sixteen, buf, sc);
      if pieces.None? {
        return None;
      }
      fields := pieces.value;
    }
    if isConnect && !(forall f :: 0 <= f < FIELDS ==> (fields[f].Some? <==> f == HOST || f == PORT)) {
      return None;
    }
    if fields[PORT].None? {
      return Some(Url(fields, 0));
    }
    var port := PortPass(buf, fields[PORT].value.off, End(fields[PORT].value));
    r := if port.None? then None else Some(Url(fields, port.value));
  }
}
