/**
 * The amount token of the add command: every ',' becomes '.', the text is read
 * as a decimal number, and only a positive value is accepted.
 */
module Amounts {
  import opened Wrappers
  import opened Numerals

  function SeparatorChar(c: char): char
  {
    if c == ',' then '.' else c
  }

  /** `s.replace(',', '.')`. */
  function NormalizeSeparator(s: string): (r: string)
    ensures |r| == |s| && forall i :: 0 <= i < |s| ==> r[i] == SeparatorChar(s[i])
  {
    if s == [] then [] else [SeparatorChar(s[0])] + NormalizeSeparator(s[1..])
  }

  /** The amount a token denotes, if it reads as a number above zero. */
  function ParseAmount(s: string): (r: Option<real>)
    ensures r.Some? ==> r.value > 0.0
    ensures r.Some? <==> ParseDecimal(NormalizeSeparator(s)).Some? && ParseDecimal(NormalizeSeparator(s)).value.Real() > 0.0
  {
    match ParseDecimal(NormalizeSeparator(s))
    case None => None
    case Some(d) => if d.Real() <= 0.0 then None else Some(d.Real())
  }

  lemma NormalizeAppend(a: string, b: string)
    ensures NormalizeSeparator(a + b) == NormalizeSeparator(a) + NormalizeSeparator(b)
  {
    var l, r := NormalizeSeparator(a + b), NormalizeSeparator(a) + NormalizeSeparator(b);
    assert forall i :: 0 <= i < |l| ==> l[i] == r[i];
  }

  /** A decimal comma and a decimal point are read alike. */
  lemma CommaAsPoint(a: string, b: string)
    ensures ParseAmount(a + "," + b) == ParseAmount(a + "." + b)
  {
    NormalizeAppend(a + ",", b);
    NormalizeAppend(a + ".", b);
    NormalizeAppend(a, ",");
    NormalizeAppend(a, ".");
  }

  /** A whole number in digits is accepted as itself when it is above zero: "50" and "050" give 50. */
  lemma ParseAmountWhole(a: string)
    requires |a| >= 1 && AllDigits(a) && Value(a) > 0
    ensures ParseAmount(a) == Some(Value(a) as real)
  {
    assert NormalizeSeparator(a) == a by {
      DigitsExclude(a, ',');
      NoCommaUnchanged(a);
    }
    assert ParseDecimal(a) == Some(Decimal(Value(a), 0)) by {
      assert IsDigit(a[0]);
      ParseUnsignedWhole(a);
      ParseDecimalSign(a);
    }
    assert Decimal(Value(a), 0).Real() == Value(a) as real by {
      assert Pow10(0) == 1;
    }
  }

  /**
   * Digits around a decimal point or a decimal comma are accepted as the whole
   * part plus the fraction when that is above zero: "50,5" and ".5" give 50.5
   * and 0.5.
   */
  lemma ParseAmountPoint(a: string, b: string)
    requires AllDigits(a) && AllDigits(b) && Value(a) + Value(b) > 0
    ensures var x := Value(a) as real + Value(b) as real / Pow10(|b|) as real;
      ParseAmount(a + "." + b) == Some(x) && ParseAmount(a + "," + b) == Some(x)
  {
    var t := a + "." + b;
    var x := Value(a) as real + Value(b) as real / Pow10(|b|) as real;
    assert |a| + |b| >= 1;
    assert NormalizeSeparator(t) == t by {
      DigitsExclude(a, ',');
      DigitsExclude(b, ',');
      NoCommaUnchanged(t);
    }
    assert ParseDecimal(t) == Some(Decimal(Value(a + b), |b|)) && Decimal(Value(a + b), |b|).Real() == x by {
      ParseUnsignedPoint(a, b);
      assert t[0] != '+' && t[0] != '-' by {
        if |a| > 0 {
          assert t[0] == a[0];
        }
      }
      ParseDecimalSign(t);
    }
    assert x > 0.0 by {
      NonNegativeShare(Value(b), Pow10(|b|));
    }
    AcceptedAs(t, Decimal(Value(a + b), |b|));
    assert ParseAmount(a + "," + b) == ParseAmount(t) by {
      CommaAsPoint(a, b);
    }
  }

  lemma AcceptedAs(s: string, d: Decimal)
    requires ParseDecimal(NormalizeSeparator(s)) == Some(d) && d.Real() > 0.0
    ensures ParseAmount(s) == Some(d.Real())
  {
  }

  lemma NonNegativeShare(w: nat, p: nat)
    requires p >= 1
    ensures w as real / p as real >= 0.0
    ensures w > 0 ==> w as real / p as real > 0.0
  {
  }

  /** A leading '+' before an unsigned amount changes nothing: "+5" is read as "5". */
  lemma ParseAmountPlus(s: string)
    requires s == [] || (s[0] != '+' && s[0] != '-')
    ensures ParseAmount("+" + s) == ParseAmount(s)
  {
    var t := NormalizeSeparator(s);
    NormalizeAppend("+", s);
    assert NormalizeSeparator("+") == "+";
    ParseDecimalSign(t);
  }

  /** A token with a leading minus sign is never accepted, not even "-0". */
  lemma MinusRejected(s: string)
    requires |s| > 0 && s[0] == '-'
    ensures ParseAmount(s) == None
  {
    var t := NormalizeSeparator(s);
    assert t[0] == '-';
    match ParseUnsigned(t[1..])
    case None =>
    case Some(d) =>
      assert ParseDecimal(t) == Some(Decimal(-d.units, d.places));
      assert Decimal(-d.units, d.places).Real() <= 0.0;
  }

  /** Digits that spell zero are rejected, however many zeros are written. */
  lemma ZeroRejected(s: string)
    requires |s| >= 1 && AllDigits(s) && Value(s) == 0
    ensures ParseAmount(s) == None
  {
    var t := NormalizeSeparator(s);
    assert t == s;
    DigitsExclude(s, '.');
    DigitsExclude(s, '+');
    DigitsExclude(s, '-');
    assert s[0] in s;
    Seqs.SplitNoSep(s, '.');
  }

  /**
   * Every positive amount in whole units of the last place (whole cents, for the
   * two decimals the history writes), written as `Fixed` writes it, is accepted
   * back as exactly that amount.
   */
  lemma ParseAmountFixed(units: nat, places: nat)
    requires units >= 1 && places >= 1
    ensures var x := units as real / Pow10(places) as real;
      ParseAmount(Fixed(x, places)) == Some(x)
  {
    var x := units as real / Pow10(places) as real;
    var t := Fixed(x, places);
    FixedExact(units, places);
    PositiveQuotient(units as real, Pow10(places) as real);
    DecimalExcludes(t, ',');
    NoCommaUnchanged(t);
  }

  lemma PositiveQuotient(a: real, b: real)
    requires a >= 1.0 && b > 0.0
    ensures a / b > 0.0
  {
  }

  lemma NoCommaUnchanged(s: string)
    requires ',' !in s
    ensures NormalizeSeparator(s) == s
  {
  }
}
