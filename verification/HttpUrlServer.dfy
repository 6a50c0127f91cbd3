/** The second pass takes the server part to pieces as the grammar does. */
module HttpUrlServer {
  import opened Options
  import opened HttpChars
  import opened HttpLength
  import opened HttpUrl
  import opened HttpUrlText

  /** Userinfo and host, up to `end`. */
  ghost predicate HostDone(buf: string, f: Fields, lo: nat, end: nat)
    requires |f| == FIELDS
  {
    && f[HOST].Some?
    && var off := f[HOST].value.off;
       if End(f[HOST].value) == end then UserinfoText(buf, f[USERINFO], lo, off) && HostText(buf, f[HOST], off, end)
       else off >= 1 && UserinfoText(buf, f[USERINFO], lo, off - 1) && HostText(buf, f[HOST], off - 1, end)
  }

  /** Up to `p`: userinfo, an opening bracket, and the address so far. */
  ghost predicate Bracketed(buf: string, f: Fields, lo: nat, p: nat)
    requires |f| == FIELDS
  {
    && f[HOST].Some? && f[HOST].value.off >= 1 && End(f[HOST].value) == p
    && UserinfoText(buf, f[USERINFO], lo, f[HOST].value.off - 1) && At(buf, f[HOST].value.off - 1, '[')
  }

  /** What the bytes from `lo` to `p` are when they lead to this state. */
  ghost predicate HostPassed(buf: string, h: HostScan, lo: nat, p: nat) {
    && |h.fields| == FIELDS && lo <= p <= |buf|
    && var f := h.fields;
       match h.state
       case HostDead => true
       case UserinfoStart => p == lo && f[USERINFO].None?
       case Userinfo => f[USERINFO] == Some(Range(lo, p - lo)) && lo < p && Run(buf, UserinfoChars, lo, p)
       case HostStart => UserinfoText(buf, f[USERINFO], lo, p)
       case V6Start => p >= 1 && UserinfoText(buf, f[USERINFO], lo, p - 1) && At(buf, p - 1, '[')
       case HostName =>
         && f[HOST].Some? && End(f[HOST].value) == p && f[HOST].value.len >= 1
         && UserinfoText(buf, f[USERINFO], lo, f[HOST].value.off) && Run(buf, NameChars, f[HOST].value.off, p)
       case V6 => Bracketed(buf, f, lo, p) && f[HOST].value.len >= 1 && Run(buf, V6Chars, f[HOST].value.off, p)
       case V6ZoneStart =>
         && Bracketed(buf, f, lo, p) && f[HOST].value.len >= 2
         && Run(buf, V6Chars, f[HOST].value.off, p - 1) && At(buf, p - 1, '%')
       case V6Zone => Bracketed(buf, f, lo, p) && exists z: nat :: ZoneText(buf, f[HOST].value.off, z, p)
       case V6End => HostDone(buf, f, lo, p)
       case PortStart => p >= 1 && HostDone(buf, f, lo, p - 1) && At(buf, p - 1, ':')
       case PortDigits =>
         && f[PORT].Some? && f[PORT].value.off >= 1
         && HostDone(buf, f, lo, f[PORT].value.off - 1) && PortText(buf, f[PORT], f[PORT].value.off - 1, p)
  }

  ghost predicate HostNext(w: Width, buf: string, base: Fields, h: HostScan, lo: nat, p: nat) {
    && p < |buf| && Ample(w, |buf|) && HostScanned(buf, base, h, lo, p) && HostPassed(buf, h, lo, p)
    && !ParseHostChar(h.state, buf[p]).HostDead?
  }

  function Grown(r: Option<Range>, grows: bool, p: nat): Option<Range> {
    if grows && r.Some? then Some(Range(r.value.off, r.value.len + 1)) else Some(Range(p, 1))
  }

  /** The piece the byte belongs to grows by it, or begins with it. */
  lemma HostGrows(w: Width, buf: string, base: Fields, h: HostScan, lo: nat, p: nat, s: HostState)
    requires p < |buf| && Ample(w, |buf|) && HostScanned(buf, base, h, lo, p) && HostFollows(h.state, s) && !s.HostDead?
    ensures s.HostName? || s.V6? || s.V6ZoneStart? || s.V6Zone? ==>
              var grows := h.state == s || s.V6ZoneStart? || s.V6Zone?;
              h.fields[HOST].Some? && HostTouch(w, h, s, p).fields == h.fields[HOST := Grown(h.fields[HOST], grows, p)]
    ensures s.PortDigits? ==>
              (h.state == s ==> h.fields[PORT].Some?)
              && HostTouch(w, h, s, p).fields == h.fields[PORT := Grown(h.fields[PORT], h.state == s, p)]
    ensures s.Userinfo? ==>
              (h.state == s ==> h.fields[USERINFO].Some?)
              && HostTouch(w, h, s, p).fields == h.fields[USERINFO := Grown(h.fields[USERINFO], h.state == s, p)]
    ensures s.HostStart? || s.V6Start? || s.V6End? || s.PortStart? ==> HostTouch(w, h, s, p).fields == h.fields
  {
    hide Decimal;
  }

  /** Bytes up to the host, within a name, and of the port. */
  lemma NameStep(w: Width, buf: string, base: Fields, h: HostScan, lo: nat, p: nat)
    requires HostNext(w, buf, base, h, lo, p)
    requires var s := ParseHostChar(h.state, buf[p]);
             s.Userinfo? || s.HostStart? || s.V6Start? || s.HostName? || s.PortStart? || s.PortDigits?
    ensures HostPassed(buf, HostTouch(w, h, ParseHostChar(h.state, buf[p]), p), lo, p + 1)
  {
    hide HostScanned, HostTouch, UserinfoChar, Decimal, V6Char, ZoneChar, NameChar, V6Text;
    HostMoves(h.state, buf[p]);
    HostGrows(w, buf, base, h, lo, p, ParseHostChar(h.state, buf[p]));
  }

  /** Bytes of an address in brackets. */
  lemma AddressStep(w: Width, buf: string, base: Fields, h: HostScan, lo: nat, p: nat)
    requires HostNext(w, buf, base, h, lo, p)
    requires var s := ParseHostChar(h.state, buf[p]); s.V6? || s.V6ZoneStart? || s.V6Zone? || s.V6End?
    ensures HostPassed(buf, HostTouch(w, h, ParseHostChar(h.state, buf[p]), p), lo, p + 1)
  {
    hide HostScanned, HostTouch, UserinfoChar, Decimal, V6Char, ZoneChar, NameChar, UserinfoText;
    var s := ParseHostChar(h.state, buf[p]);
    HostMoves(h.state, buf[p]);
    HostGrows(w, buf, base, h, lo, p, s);
    if s.V6Zone? {
      var off := h.fields[HOST].value.off;
      var z: nat := p - 1;
      if h.state.V6Zone? {
        z :| ZoneText(buf, off, z, p);
      }
      assert ZoneText(buf, off, z, p + 1);
    }
  }

  lemma HostPassedStep(w: Width, buf: string, base: Fields, h: HostScan, lo: nat, p: nat)
    requires HostNext(w, buf, base, h, lo, p)
    ensures HostPassed(buf, HostTouch(w, h, ParseHostChar(h.state, buf[p]), p), lo, p + 1)
  {
    hide HostPassed, HostScanned, HostTouch;
    var s := ParseHostChar(h.state, buf[p]);
    HostMoves(h.state, buf[p]);
    if s.V6? || s.V6ZoneStart? || s.V6Zone? || s.V6End? {
      AddressStep(w, buf, base, h, lo, p);
    } else {
      NameStep(w, buf, base, h, lo, p);
    }
  }

  lemma {:induction false} HostToPassed(w: Width, buf: string, base: Fields, foundAt: bool, lo: nat, p: nat)
    requires |base| == FIELDS && Has(base, HOST) && base[USERINFO].None? && base[PORT].None? && lo <= p <= |buf| && Ample(w, |buf|)
    ensures HostPassed(buf, HostTo(w, buf, HostBegin(base, foundAt), lo, p), lo, p)
    decreases p
  {
    hide ParseHostChar, HostTouch, HostPassed, HostScanned;
    if p == lo {
      HostStartPassed(buf, base, foundAt, lo);
    } else {
      HostToPassed(w, buf, base, foundAt, lo, p - 1);
      var h := HostTo(w, buf, HostBegin(base, foundAt), lo, p - 1);
      HostToScanned(w, buf, base, foundAt, lo, p - 1);
      if ParseHostChar(h.state, buf[p - 1]).HostDead? {
        DeadPasses(w, buf, h, lo, p - 1);
      } else {
        HostPassedStep(w, buf, base, h, lo, p - 1);
      }
    }
  }

  lemma HostStartPassed(buf: string, base: Fields, foundAt: bool, lo: nat)
    requires |base| == FIELDS && Has(base, HOST) && base[USERINFO].None? && lo <= |buf|
    ensures HostPassed(buf, HostBegin(base, foundAt), lo, lo)
  {
  }

  lemma DeadPasses(w: Width, buf: string, h: HostScan, lo: nat, p: nat)
    requires lo <= p < |buf| && |h.fields| == FIELDS
    ensures HostPassed(buf, HostTouch(w, h, HostDead, p), lo, p + 1)
  {
  }
}
