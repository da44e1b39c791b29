/** Decimal numerals: printing a number, parsing a numeral, and padding with leading zeros. */
module Decimal {

  predicate IsDigit(c: char) { '0' <= c <= '9' }

  predicate IsNumeral(d: string) {
    |d| > 0 && forall i | 0 <= i < |d| :: IsDigit(d[i])
  }

  function DigitValue(c: char): (r: nat)
    requires IsDigit(c)
    ensures r < 10
  {
    c as int - '0' as int
  }

  function DigitChar(v: nat): (c: char)
    requires v < 10
    ensures IsDigit(c) && DigitValue(c) == v
  {
    (v + '0' as int) as char
  }

  /** String.valueOf of a non-negative number. */
  function Print(n: nat): (d: string)
    ensures IsNumeral(d)
    ensures |d| == 1 || d[0] != '0'
    decreases n
  {
    if n < 10 then [DigitChar(n)] else Print(n / 10) + [DigitChar(n % 10)]
  }

  /** Integer parsing of a numeral, leading zeros allowed. */
  function Parse(d: string): nat
    requires forall i | 0 <= i < |d| :: IsDigit(d[i])
  {
    if d == [] then 0 else 10 * Parse(d[..|d| - 1]) + DigitValue(d[|d| - 1])
  }

  /** %0wd */
  function Padded(n: nat, w: nat): (d: string)
    ensures |d| == w && forall i | 0 <= i < w :: IsDigit(d[i])
  {
    if w == 0 then [] else Padded(n / 10, w - 1) + [DigitChar(n % 10)]
  }

  function Pow10(k: nat): (r: nat)
    ensures r > 0
  {
    if k == 0 then 1 else 10 * Pow10(k - 1)
  }

  lemma {:induction false} ParsePrint(n: nat)
    ensures Parse(Print(n)) == n
    decreases n
  {
    if n >= 10 {
      var d := Print(n);
      assert d[..|d| - 1] == Print(n / 10);
      ParsePrint(n / 10);
    } else {
      assert Print(n)[..0] == [];
    }
  }

  lemma {:induction false} ParsePadded(n: nat, w: nat)
    requires n < Pow10(w)
    ensures Parse(Padded(n, w)) == n
  {
    if w > 0 {
      var d, init := Padded(n, w), Padded(n / 10, w - 1);
      assert n / 10 < Pow10(w - 1);
      ParsePadded(n / 10, w - 1);
      assert d == init + [DigitChar(n % 10)];
      hide Padded, Pow10;
      assert d[..|d| - 1] == init && d[|d| - 1] == DigitChar(n % 10);
    }
  }

  lemma {:induction false} ParseZero(d: string)
    requires IsNumeral(d) && |d| > 1 && d[0] != '0'
    ensures Parse(d[..|d| - 1]) > 0
    decreases |d|
  {
    var e := d[..|d| - 1];
    if |e| > 1 {
      ParseZero(e);
    } else {
      assert e[..0] == [];
    }
  }

  /** Parsing a numeral and printing it again gives it back exactly when it has no leading zero. */
  lemma {:induction false} PrintParse(d: string)
    requires IsNumeral(d)
    ensures Print(Parse(d)) == d <==> |d| == 1 || d[0] != '0'
    decreases |d|
  {
    if |d| > 1 && d[0] != '0' {
      var e := d[..|d| - 1];
      PrintParse(e);
      ParseZero(d);
      assert DigitChar(DigitValue(d[|d| - 1])) == d[|d| - 1];
      assert d == e + [d[|d| - 1]];
    } else if |d| == 1 {
      assert d[..0] == [];
    }
  }

  /** A padded numeral begins with 0 exactly when the number needs fewer digits. */
  lemma {:induction false} PaddedLeadingZero(n: nat, w: nat)
    requires w > 0 && n < Pow10(w)
    ensures Padded(n, w)[0] == '0' <==> n < Pow10(w - 1)
  {
    if w > 1 {
      PaddedLeadingZero(n / 10, w - 1);
      assert Padded(n, w)[0] == Padded(n / 10, w - 1)[0];
    } else {
      assert Pow10(0) == 1;
    }
  }

  // ---------------------------------------------------------------- literal numerals

  lemma Digits(v: nat)
    requires v < 10
    ensures DigitChar(v) == "0123456789"[v] && DigitValue("0123456789"[v]) == v
  {
  }

  lemma Numerals()
    ensures Print(2048) == "2048" && Padded(48, 4) == "0048" && Parse("0048") == 48
  {
    assert Print(20) == Print(2) + "0" == "20";
    assert Print(204) == Print(20) + "4" == "204";
    assert Padded(0, 2) == Padded(0, 1) + "0" == "00";
    assert Padded(4, 3) == Padded(0, 2) + "4" == "004";
    assert "0048"[..3] == "004" && "004"[..2] == "00" && "00"[..1] == "0" && "0"[..0] == "";
  }
}
