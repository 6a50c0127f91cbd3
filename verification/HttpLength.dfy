/** The value of a Content-Length header: decimal digits, and then perhaps spaces. */
module HttpLength {
  import opened Options
  import opened HttpBody
  import opened HttpChars

  /** `IS_NUM` */
  predicate IsNum(ch: char)
    ensures IsNum(ch) <==> Decimal(ch)
    ensures IsNum(ch) ==> ch as int - '0' as int == DecimalDigit(ch)
  {
    DecimalsAre(ch);
    '0' <= ch <= '9'
  }

  ghost predicate AllNum(digits: string) {
    forall i :: 0 <= i < |digits| ==> Decimal(digits[i])
  }

  ghost function DecValue(digits: string): nat
    requires AllNum(digits)
  {
    if digits == [] then 0
    else DecValue(digits[..|digits| - 1]) * 10 + DecimalDigit(digits[|digits| - 1])
  }

  /** `k` digits that stand for a number the guard allows, and spaces behind them. */
  ghost predicate Digits(value: string, k: nat) {
    && 1 <= k <= |value| && AllNum(value[..k]) && (forall i :: k <= i < |value| ==> value[i] == ' ')
    && (k > 1 ==> DecValue(value[..k - 1]) <= (ULLONG_MAX - 10) / 10)
  }

  lemma DecNext(value: string, k: nat)
    requires k < |value| && AllNum(value[..k]) && Decimal(value[k])
    ensures AllNum(value[..k + 1])
    ensures DecValue(value[..k + 1]) == DecValue(value[..k]) * 10 + DecimalDigit(value[k])
  {
    assert value[..k + 1][..k] == value[..k];
  }

  lemma {:induction false} DecGrows(value: string, j: nat, k: nat)
    requires j <= k <= |value| && AllNum(value[..k])
    ensures AllNum(value[..j]) && DecValue(value[..j]) <= DecValue(value[..k])
    decreases k - j
  {
    AllNumPrefix(value, j, k);
    if j < k {
      AllNumPrefix(value, k - 1, k);
      DigitAt(value, k, k - 1);
      DecGrows(value, j, k - 1);
      DecNext(value, k - 1);
    }
  }

  lemma AllNumPrefix(value: string, j: nat, k: nat)
    requires j <= k <= |value| && AllNum(value[..k])
    ensures AllNum(value[..j])
  {
    forall i | 0 <= i < |value[..j]| ensures Decimal(value[..j][i]) {
      DigitAt(value, k, i);
    }
  }

  lemma DigitAt(value: string, k: nat, i: nat)
    requires k <= |value| && AllNum(value[..k]) && i < k
    ensures Decimal(value[i])
  {
    assert Decimal(value[..k][i]);
  }

  /** There is only one way to read the value. */
  lemma DigitsUnique(value: string, j: nat, k: nat)
    requires Digits(value, j) && Digits(value, k)
    ensures j == k
  {
    if j < k {
      DigitAt(value, k, j);
    } else if k < j {
      DigitAt(value, j, k);
    }
  }

  /**
   Accumulate the length. It is accepted exactly when it reads as digits, all but the last of them worth no more
   than the guard allows, and spaces; it is the number the digits stand for, and never the marker for none.
   */
  method ContentLength(value: string) returns (r: Option<nat>, ghost k: nat)
    ensures r.Some? ==> Digits(value, k) && r.value == DecValue(value[..k]) < ULLONG_MAX
    ensures r.None? ==> forall j: nat :: !Digits(value, j)
  {
    hide IsNum, Decimal, DecimalDigit;
    k := 0;
    if value == [] || !IsNum(value[0]) {
      NotFirst(value);
      return None, 0;
    }
    var length: nat, spaces := value[0] as int - '0' as int, false;
    DecNext(value, 0);
    assert value[..0] == [];
    k := 1;
    var p := 1;
    while p < |value|
      invariant 1 <= k <= p <= |value| && AllNum(value[..k]) && length == DecValue(value[..k]) < ULLONG_MAX
      invariant k > 1 ==> DecValue(value[..k - 1]) <= (ULLONG_MAX - 10) / 10
      invariant forall i :: k <= i < p ==> value[i] == ' '
      invariant spaces <==> k < p
      decreases |value| - p
    {
      var ch := value[p];
      if ch == ' ' {
        spaces := true;
      } else if spaces || !IsNum(ch) {
        Stuck(value, k, p);
        return None, 0;
      } else {
        var t := length;
        t := t * 10;
        t := t + (ch as int - '0' as int);
        if (ULLONG_MAX - 10) / 10 < length {
          TooLong(value, k);
          return None, 0;
        }
        DecNext(value, k);
        length := t;
        k := k + 1;
      }
      p := p + 1;
    }
    r := Some(length);
  }

  lemma NotFirst(value: string)
    requires value == [] || !Decimal(value[0])
    ensures forall j: nat :: !Digits(value, j)
  {
    forall j: nat | Digits(value, j) ensures false {
      DigitAt(value, j, 0);
    }
  }

  /** A byte that is neither a digit nor a space, or a digit behind a space. */
  lemma Stuck(value: string, k: nat, p: nat)
    requires 1 <= k <= p < |value| && value[p] != ' ' && (k == p ==> !Decimal(value[p])) && (k < p ==> value[k] == ' ')
    ensures forall j: nat :: !Digits(value, j)
  {
    forall j: nat | Digits(value, j) ensures false {
      if j > k {
        DigitAt(value, j, k);
      }
    }
  }

  lemma TooLong(value: string, k: nat)
    requires 1 <= k < |value| && AllNum(value[..k]) && Decimal(value[k]) && DecValue(value[..k]) > (ULLONG_MAX - 10) / 10
    ensures forall j: nat :: !Digits(value, j)
  {
    forall j: nat | Digits(value, j) ensures false {
      if j > k {
        AllNumPrefix(value, j - 1, j);
        DecGrows(value, k, j - 1);
      }
    }
  }
}
