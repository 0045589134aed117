/**
 * Numeric coercion of text cells, the part of pandas `to_numeric(...,
 * errors="coerce")` the country pipeline depends on: an optional sign, decimal
 * digits, and an optional fractional part. Anything else coerces to a
 * missing value.
 */
module Numbers {
  import opened Wrappers
  import opened Seqs

  predicate IsDigit(c: char) { '0' <= c <= '9' }

  predicate AllDigits(s: string) { forall c :: c in s ==> IsDigit(c) }

  predicate NotDigit(c: char) { !IsDigit(c) }

  function DigitValue(c: char): nat
    requires IsDigit(c)
  {
    c as int - '0' as int
  }

  function Pow10(k: nat): (r: nat)
    ensures r >= 1
  {
    if k == 0 then 1 else 10 * Pow10(k - 1)
  }

  /** The value of a run of decimal digits, most significant first. */
  function DigitsValue(ds: string): nat
    requires AllDigits(ds)
  {
    if ds == [] then 0 else DigitsValue(ds[..|ds| - 1]) * 10 + DigitValue(ds[|ds| - 1])
  }

  /** The value of `whole.frac`: the whole part plus the fraction read over its own power of ten. */
  function DecimalValue(whole: string, frac: string): real
    requires AllDigits(whole) && AllDigits(frac)
  {
    DigitsValue(whole) as real + DigitsValue(frac) as real / Pow10(|frac|) as real
  }

  /** Digits, optionally followed by `.` and more digits; at least one digit in all. */
  function ParseUnsigned(s: string): (r: Option<real>)
    ensures r.Some? ==> r.value >= 0.0
    ensures r.Some? ==> exists c :: c in s && IsDigit(c)
    ensures r.Some? ==> forall c :: c in s ==> IsDigit(c) || c == '.'
  {
    var k := Span(s, NotDigit);
    var whole := s[..k];
    assert AllDigits(whole);
    if k == |s| then
      if k == 0 then None
      else assert s[0] in s; Some(DigitsValue(whole) as real)
    else if s[k] != '.' then None
    else
      var frac := s[k + 1..];
      if !AllDigits(frac) || (k == 0 && frac == []) then None
      else
        assert s == whole + ['.'] + frac;
        assert k > 0 ==> s[0] in s;
        assert k == 0 ==> s[1] in s;
        Some(DecimalValue(whole, frac))
  }

  /**
   * Coerces a cell's text to a number; `None` is the missing value pandas
   * produces for text it cannot read (".." in World Bank exports, for one).
   */
  function ParseNumber(s: string): (r: Option<real>)
    ensures s == [] ==> r.None?
    ensures r.Some? ==> exists c :: c in s && IsDigit(c)
    ensures r.Some? ==> forall c :: c in s ==> IsDigit(c) || c == '.' || c == '-' || c == '+'
  {
    if s != [] && (s[0] == '-' || s[0] == '+') then
      assert s == [s[0]] + s[1..];
      match ParseUnsigned(s[1..])
      case None => None
      case Some(v) => Some(if s[0] == '-' then -v else v)
    else ParseUnsigned(s)
  }

  /** The decimal digits of `n` without leading zeros. */
  function ShowNat(n: nat): (r: string)
    ensures r != [] && AllDigits(r)
  {
    if n < 10 then [('0' as int + n) as char]
    else ShowNat(n / 10) + [('0' as int + n % 10) as char]
  }

  /** The decimal text of an integer, with a leading `-` when negative. */
  function ShowInt(n: int): (r: string)
    ensures r != []
  {
    if n < 0 then "-" + ShowNat(-n) else ShowNat(n)
  }

  lemma {:induction false} ShowNatValue(n: nat)
    ensures DigitsValue(ShowNat(n)) == n
  {
    if n >= 10 {
      ShowNatValue(n / 10);
      var s := ShowNat(n);
      assert s[..|s| - 1] == ShowNat(n / 10);
    }
  }

  /** A non-empty run of digits coerces to its decimal value. */
  lemma ParseDigits(d: string)
    requires d != [] && AllDigits(d)
    ensures ParseUnsigned(d) == Some(DigitsValue(d) as real)
  {
    var k := Span(d, NotDigit);
    assert k == |d|;
    assert d[..k] == d;
  }

  /** Coercion reads back every decimal integer text as its value. */
  lemma ParseShowInt(n: int)
    ensures ParseNumber(ShowInt(n)) == Some(n as real)
  {
    var m: nat := if n < 0 then -n else n;
    var d := ShowNat(m);
    ShowNatValue(m);
    ParseDigits(d);
    if n < 0 {
      assert ShowInt(n) == "-" + d;
      assert ShowInt(n)[1..] == d;
    } else {
      assert IsDigit(d[0]) by {
        assert d[0] in d;
      }
    }
  }

  /** Digits, a point and digits (either run may be empty, not both) coerce to their decimal value. */
  lemma ParseDecimal(whole: string, frac: string)
    requires AllDigits(whole) && AllDigits(frac) && (whole != [] || frac != [])
    ensures ParseUnsigned(whole + "." + frac) == Some(DecimalValue(whole, frac))
  {
    var s := whole + "." + frac;
    var k := |whole|;
    assert forall i :: 0 <= i < k ==> s[i] == whole[i] && s[i] in whole;
    assert s[k] == '.';
    SpanUnique(s, NotDigit, k);
    assert s[..k] == whole && s[k + 1..] == frac;
    assert k < |s| && s[k] == '.';
  }

  /** A leading `-` negates what the rest of the text coerces to. */
  lemma ParseMinus(s: string)
    ensures ParseNumber("-" + s) == if ParseUnsigned(s).Some? then Some(-ParseUnsigned(s).value) else None
  {
    var t := "-" + s;
    assert t[0] == '-' && t[1..] == s;
  }

  /** A leading `+` leaves what the rest of the text coerces to. */
  lemma ParsePlus(s: string)
    ensures ParseNumber("+" + s) == ParseUnsigned(s)
  {
    var t := "+" + s;
    assert t[0] == '+' && t[1..] == s;
  }

  /** A World Bank observation such as "1.5" coerces to its value. */
  lemma OnePointFive()
    ensures ParseNumber("1.5") == Some(1.5)
  {
    ParseDecimal("1", "5");
    assert "1" + "." + "5" == "1.5";
    assert DigitsValue("1") == 1 by {
      assert "1"[..0] == [];
    }
    assert DigitsValue("5") == 5 by {
      assert "5"[..0] == [];
    }
    assert DecimalValue("1", "5") == 1.5 by {
      assert Pow10(1) == 10;
    }
    assert "1.5"[0] == '1';
  }

  /** The World Bank placeholder ".." for a missing observation does not coerce. */
  lemma MissingMarkerIsNotANumber()
    ensures ParseNumber("..") == None
  {
    assert Span("..", NotDigit) == 0;
  }
}
