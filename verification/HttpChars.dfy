/**
 Characters by what they stand for, as lists and ranges of their own: what the parsers' tests for characters are
 measured by. A character is a byte; those from 128 on are beyond ASCII.
 */
module HttpChars {
  const DECIMALS: string := "0123456789"
  const LOWER_HEX: string := "0123456789abcdef"
  const UPPER_HEX: string := "0123456789ABCDEF"

  /** `ch` is the `v`th of the characters listed. */
  predicate Stands(list: string, v: nat, ch: char) {
    v < |list| && list[v] == ch
  }

  ghost predicate Decimal(ch: char) {
    exists v: nat :: Stands(DECIMALS, v, ch)
  }

  /** A hexadecimal digit worth `v`, in either case. */
  predicate HexWorth(v: nat, ch: char) {
    Stands(LOWER_HEX, v, ch) || Stands(UPPER_HEX, v, ch)
  }

  ghost predicate Hexadecimal(ch: char) {
    exists v: nat :: HexWorth(v, ch)
  }

  predicate BeyondAscii(ch: char) {
    ch as int >= 128
  }

  /** What a decimal digit is worth: its place in the list. */
  ghost function DecimalDigit(ch: char): (v: nat)
    requires Decimal(ch)
    ensures Stands(DECIMALS, v, ch)
  {
    var v: nat :| Stands(DECIMALS, v, ch);
    v
  }

  /** What a hexadecimal digit is worth: its place in either list. */
  ghost function HexDigit(ch: char): (v: nat)
    requires Hexadecimal(ch)
    ensures HexWorth(v, ch)
  {
    var v: nat :| HexWorth(v, ch);
    v
  }

  /** The decimal digits are a range of characters, worth their distance from its start. */
  lemma DecimalsAre(ch: char)
    ensures Decimal(ch) <==> '0' <= ch <= '9'
    ensures Decimal(ch) ==> DecimalDigit(ch) == ch as int - '0' as int
  {
    forall v: nat ensures Stands(DECIMALS, v, ch) <==> '0' <= ch <= '9' && v == ch as int - '0' as int {
      if v < 10 {
        assert DECIMALS[v] as int == '0' as int + v;
      }
    }
    assert '0' <= ch <= '9' ==> Stands(DECIMALS, ch as int - '0' as int, ch);
  }

  lemma HexListed(v: nat)
    requires v < 16
    ensures LOWER_HEX[v] as int == if v < 10 then '0' as int + v else 'a' as int + (v - 10)
    ensures UPPER_HEX[v] as int == if v < 10 then '0' as int + v else 'A' as int + (v - 10)
  {
  }

  lemma HexWorthIs(v: nat, ch: char)
    ensures HexWorth(v, ch) <==>
      || ('0' <= ch <= '9' && v == ch as int - '0' as int)
      || ('a' <= ch <= 'f' && v == ch as int - 'a' as int + 10)
      || ('A' <= ch <= 'F' && v == ch as int - 'A' as int + 10)
  {
    if v < 16 {
      HexListed(v);
    }
  }

  /** The hexadecimal digits are three ranges of characters. */
  lemma HexadecimalsAre(ch: char)
    ensures Hexadecimal(ch) <==> '0' <= ch <= '9' || 'a' <= ch <= 'f' || 'A' <= ch <= 'F'
    ensures '0' <= ch <= '9' ==> HexDigit(ch) == ch as int - '0' as int
    ensures 'a' <= ch <= 'f' ==> HexDigit(ch) == ch as int - 'a' as int + 10
    ensures 'A' <= ch <= 'F' ==> HexDigit(ch) == ch as int - 'A' as int + 10
  {
    forall v: nat {
      HexWorthIs(v, ch);
    }
    if '0' <= ch <= '9' {
      assert HexWorth(ch as int - '0' as int, ch);
    } else if 'a' <= ch <= 'f' {
      assert HexWorth(ch as int - 'a' as int + 10, ch);
    } else if 'A' <= ch <= 'F' {
      assert HexWorth(ch as int - 'A' as int + 10, ch);
    }
  }

  // ---------------------------------------------------------------- in URLs

  predicate Letter(ch: char) {
    'a' <= ch <= 'z' || 'A' <= ch <= 'Z'
  }

  ghost predicate LetterOrDecimal(ch: char) {
    Letter(ch) || Decimal(ch)
  }

  ghost predicate UserinfoChar(ch: char) {
    LetterOrDecimal(ch) || ch in "-_.!~*'()%;:&=+$,"
  }

  /** Visible in ASCII, except for what begins a query or a fragment. */
  predicate PathChar(ch: char) {
    '!' <= ch <= '~' && ch !in "?#"
  }

  ghost predicate NameChar(ch: char) {
    LetterOrDecimal(ch) || ch in "-."
  }

  /** Of an address in brackets. */
  ghost predicate V6Char(ch: char) {
    Hexadecimal(ch) || ch in ":."
  }

  /** Unreserved or a percent sign, as RFC 6874 has it for zone identifiers. */
  ghost predicate ZoneChar(ch: char) {
    LetterOrDecimal(ch) || ch in "-._~%"
  }
}
