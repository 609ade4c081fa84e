/**
 * Decimal text: digit strings and their values, zero-padded fields as
 * `strftime` writes them, Python's `str(int)`, a decimal-number grammar for
 * amounts, fixed-point rendering as `format(x, '.Nf')`, and the Latin-1 part
 * of `str.lower()`.
 */
module Numerals {
  import opened Wrappers
  import opened Seqs

  predicate IsDigit(c: char)
  {
    '0' <= c <= '9'
  }

  predicate AllDigits(s: string)
  {
    forall i :: 0 <= i < |s| ==> IsDigit(s[i])
  }

  function DigitValue(c: char): nat
    requires IsDigit(c)
  {
    c as int - '0' as int
  }

  function DigitChar(d: nat): (c: char)
    requires d < 10
    ensures IsDigit(c) && DigitValue(c) == d
  {
    ('0' as int + d) as char
  }

  /** The number a string of decimal digits denotes (most significant digit first). */
  function Value(s: string): nat
    requires AllDigits(s)
  {
    if s == [] then 0 else Value(s[..|s| - 1]) * 10 + DigitValue(s[|s| - 1])
  }

  function Pow10(k: nat): (r: nat)
    ensures r >= 1
  {
    if k == 0 then 1 else 10 * Pow10(k - 1)
  }

  /** A digit string of length k denotes a number below 10^k. */
  lemma {:induction false} ValueBound(s: string)
    requires AllDigits(s)
    ensures Value(s) < Pow10(|s|)
  {
    if s != [] {
      ValueBound(s[..|s| - 1]);
    }
  }

  /** `n` written with exactly `width` digits, zero-padded on the left (`%02d`, `%04d`). */
  function Pad(n: nat, width: nat): (r: string)
    requires n < Pow10(width)
    ensures |r| == width && AllDigits(r) && Value(r) == n
  {
    if width == 0 then ""
    else
      assert n / 10 < Pow10(width - 1);
      var r := Pad(n / 10, width - 1) + [DigitChar(n % 10)];
      assert r[..|r| - 1] == Pad(n / 10, width - 1);
      r
  }

  /** Padding a digit string's own value to its own length gives the string back. */
  lemma {:induction false} PadValue(t: string)
    requires AllDigits(t)
    ensures Value(t) < Pow10(|t|) && Pad(Value(t), |t|) == t
  {
    ValueBound(t);
    if t != [] {
      var p, d := t[..|t| - 1], t[|t| - 1];
      var v := Value(t);
      assert v == Value(p) * 10 + DigitValue(d);
      calc {
        Pad(v, |t|);
        Pad(v / 10, |t| - 1) + [DigitChar(v % 10)];
        { LastDigit(Value(p), DigitValue(d)); }
        Pad(Value(p), |p|) + [DigitChar(DigitValue(d))];
        { PadValue(p); }
        p + [d];
        { assert t == p + [d]; }
        t;
      }
    }
  }

  lemma LastDigit(v: nat, d: nat)
    requires d < 10
    ensures (v * 10 + d) / 10 == v && (v * 10 + d) % 10 == d
  {
  }

  /** Python's `str(n)` for a natural number: its digits without leading zeros. */
  function NatText(n: nat): (r: string)
    ensures |r| >= 1 && AllDigits(r) && Value(r) == n
    ensures r[0] == '0' ==> n == 0 && |r| == 1
  {
    if n < 10 then [DigitChar(n)]
    else
      var r := NatText(n / 10) + [DigitChar(n % 10)];
      assert r[..|r| - 1] == NatText(n / 10);
      r
  }

  /** Appending digits shifts the value of the digits before them. */
  lemma {:induction false} ValueAppend(a: string, b: string)
    requires AllDigits(a) && AllDigits(b)
    ensures AllDigits(a + b) && Value(a + b) == Value(a) * Pow10(|b|) + Value(b)
  {
    if b == [] {
      assert a + b == a;
    } else {
      var b', d := b[..|b| - 1], DigitValue(b[|b| - 1]);
      ValueAppend(a, b');
      calc {
        Value(a + b);
        { assert (a + b)[..|a + b| - 1] == a + b'; }
        Value(a + b') * 10 + d;
        (Value(a) * Pow10(|b'|) + Value(b')) * 10 + d;
        { ShiftDigit(Value(a), Pow10(|b'|), Value(b'), d); }
        Value(a) * (10 * Pow10(|b'|)) + (Value(b') * 10 + d);
      }
    }
  }

  lemma ShiftDigit(v: int, p: int, w: int, d: int)
    ensures (v * p + w) * 10 + d == v * (10 * p) + (w * 10 + d)
  {
  }

  /** An exact decimal number: `units` counted in the `places`-th decimal place. */
  datatype Decimal = Decimal(units: int, places: nat)
  {
    function Real(): real
    {
      units as real / Pow10(places) as real
    }
  }

  /** An unsigned decimal: digits with at most one '.', at least one digit in all. */
  function ParseUnsigned(s: string): (r: Option<Decimal>)
    ensures r.Some? ==> r.value.units >= 0
  {
    UnsignedOfPieces(Split(s, '.'))
  }

  /** The decimal the pieces around an unsigned decimal's '.' spell, if they form one. */
  function UnsignedOfPieces(parts: seq<string>): (r: Option<Decimal>)
    ensures r.Some? ==> r.value.units >= 0
  {
    if |parts| == 1 && |parts[0]| >= 1 && AllDigits(parts[0]) then
      Some(Decimal(Value(parts[0]), 0))
    else if |parts| == 2 && |parts[0]| + |parts[1]| >= 1 && AllDigits(parts[0]) && AllDigits(parts[1]) then
      ValueAppend(parts[0], parts[1]);
      Some(Decimal(Value(parts[0] + parts[1]), |parts[1]|))
    else None
  }

  /** A decimal number with an optional leading sign, as Python's `float()` reads plain decimals. */
  function ParseDecimal(s: string): (r: Option<Decimal>)
    ensures r.Some? && r.value.units < 0 ==> |s| > 0 && s[0] == '-'
  {
    if |s| > 0 && (s[0] == '+' || s[0] == '-') then
      match ParseUnsigned(s[1..])
      case None => None
      case Some(d) => Some(if s[0] == '-' then Decimal(-d.units, d.places) else d)
    else ParseUnsigned(s)
  }

  /** The integer nearest to `y`, ties to the even one, as Python rounds when formatting. */
  function RoundHalfEven(y: real): (n: nat)
    requires y >= 0.0
    ensures y - 0.5 <= n as real <= y + 0.5
  {
    var f := y.Floor;
    var frac := y - f as real;
    if frac > 0.5 || (frac == 0.5 && f % 2 == 1) then f + 1 else f
  }

  function Abs(x: real): real
  {
    if x < 0.0 then -x else x
  }

  /** `n` units of the `places`-th decimal place, written with `places` decimals. */
  function FixedDigits(n: nat, places: nat): string
  {
    NatText(Shift(n, places)) + (if places == 0 then "" else "." + LowDigits(n, places))
  }

  /** `n` with its last `k` decimal digits dropped. */
  function Shift(n: nat, k: nat): nat
  {
    if k == 0 then n else Shift(n / 10, k - 1)
  }

  /** The last `k` decimal digits of `n`, zero-padded to `k` digits. */
  function LowDigits(n: nat, k: nat): (r: string)
    ensures |r| == k && AllDigits(r)
  {
    if k == 0 then ""
    else
      var r := LowDigits(n / 10, k - 1) + [DigitChar(n % 10)];
      assert r[..|r| - 1] == LowDigits(n / 10, k - 1);
      r
  }

  /** Dropping the last `k` digits and reading them back splits `n` in two. */
  lemma {:induction false} ShiftLow(n: nat, k: nat)
    ensures Shift(n, k) * Pow10(k) + Value(LowDigits(n, k)) == n
  {
    if k > 0 {
      var m, low := n / 10, LowDigits(n, k);
      var s, p, w := Shift(m, k - 1), Pow10(k - 1), LowDigits(m, k - 1);
      calc {
        Shift(n, k) * Pow10(k) + Value(low);
        s * (10 * p) + Value(low);
        { assert low[..|low| - 1] == w; }
        s * (10 * p) + (Value(w) * 10 + n % 10);
        { ShiftDigit(s, p, Value(w), n % 10); }
        (s * p + Value(w)) * 10 + n % 10;
        { ShiftLow(m, k - 1); }
        m * 10 + n % 10;
      }
    }
  }

  /** `|x|` scaled to units of the `places`-th decimal place. */
  function Scaled(x: real, places: nat): (y: real)
    ensures y >= 0.0
  {
    Abs(x) * Pow10(places) as real
  }

  /** `|x|` counted in units of the `places`-th decimal place, rounded half to even. */
  function Units(x: real, places: nat): (n: nat)
    ensures Scaled(x, places) - 0.5 <= n as real <= Scaled(x, places) + 0.5
  {
    RoundHalfEven(Scaled(x, places))
  }

  /** Python's `format(x, '.Nf')` for N = `places`, on the exact value of `x`. */
  function Fixed(x: real, places: nat): string
  {
    (if x < 0.0 then "-" else "") + FixedDigits(Units(x, places), places)
  }

  /** No digit string holds the character `c` unless `c` is a digit. */
  lemma DigitsExclude(a: string, c: char)
    requires AllDigits(a) && !IsDigit(c)
    ensures c !in a
  {
  }

  lemma SplitDigitsDot(a: string, b: string)
    requires AllDigits(a) && AllDigits(b)
    ensures Split(a + "." + b, '.') == [a, b]
  {
    DigitsExclude(a, '.');
    DigitsExclude(b, '.');
    assert a + "." + b == a + ['.'] + b;
    SplitAt(a, b, '.');
    SplitNoSep(b, '.');
  }

  /** A digit string with no point reads as that whole number. */
  lemma ParseUnsignedWhole(a: string)
    requires |a| >= 1 && AllDigits(a)
    ensures ParseUnsigned(a) == Some(Decimal(Value(a), 0))
  {
    DigitsExclude(a, '.');
    SplitNoSep(a, '.');
  }

  /**
   * Digits around one point read as all the digits counted in units of the
   * last place: the whole part plus the fraction over ten to its length.
   */
  lemma ParseUnsignedPoint(a: string, b: string)
    requires AllDigits(a) && AllDigits(b) && |a| + |b| >= 1
    ensures AllDigits(a + b)
    ensures ParseUnsigned(a + "." + b) == Some(Decimal(Value(a + b), |b|))
    ensures Decimal(Value(a + b), |b|).Real() == Value(a) as real + Value(b) as real / Pow10(|b|) as real
  {
    ValueAppend(a, b);
    assert ParseUnsigned(a + "." + b) == Some(Decimal(Value(a + b), |b|)) by {
      SplitDigitsDot(a, b);
    }
    assert Decimal(Value(a + b), |b|).Real() == Value(a) as real + Value(b) as real / Pow10(|b|) as real by {
      ScaledSum(Value(a + b), Value(a), Value(b), Pow10(|b|));
    }
  }

  lemma ScaledSum(n: nat, v: nat, w: nat, p: nat)
    requires p >= 1 && n == v * p + w
    ensures n as real / p as real == v as real + w as real / p as real
  {
    assert n as real == v as real * p as real + w as real;
  }

  /**
   * The converse: an accepted unsigned decimal is a digit string read as a
   * whole number, or digits around exactly one point read as above.
   */
  lemma ParseUnsignedSound(s: string)
    requires ParseUnsigned(s).Some?
    ensures (|s| >= 1 && AllDigits(s) && ParseUnsigned(s).value == Decimal(Value(s), 0))
      || exists k :: 0 <= k < |s| && s[k] == '.' && AllDigits(s[..k]) && AllDigits(s[k + 1..])
           && ParseUnsigned(s).value == Decimal(Value(s[..k] + s[k + 1..]), |s| - k - 1)
  {
    var parts := Split(s, '.');
    JoinSplit(s, '.');
    if |parts| == 2 {
      var k := |parts[0]|;
      assert s == parts[0] + "." + parts[1];
      assert s[k] == '.' && s[..k] == parts[0] && s[k + 1..] == parts[1];
    }
  }

  /** A leading '+' changes nothing and a leading '-' negates, on an unsigned decimal. */
  lemma ParseDecimalSign(s: string)
    ensures ParseDecimal("+" + s) == ParseUnsigned(s)
    ensures ParseDecimal("-" + s) ==
      if ParseUnsigned(s).Some? then Some(Decimal(-ParseUnsigned(s).value.units, ParseUnsigned(s).value.places)) else None
    ensures s == [] || (s[0] != '+' && s[0] != '-') ==> ParseDecimal(s) == ParseUnsigned(s)
  {
    assert ("+" + s)[1..] == s;
    assert ("-" + s)[1..] == s;
  }

  /** The digits `FixedDigits` writes read back as exactly `n` units of the last place. */
  lemma FixedDigitsReadBack(n: nat, places: nat)
    requires places >= 1
    ensures ParseUnsigned(FixedDigits(n, places)) == Some(Decimal(n, places))
    ensures IsDigit(FixedDigits(n, places)[0])
  {
    var a, b := NatText(Shift(n, places)), LowDigits(n, places);
    assert FixedDigits(n, places) == a + "." + b;
    SplitDigitsDot(a, b);
    ValueAppend(a, b);
    ShiftLow(n, places);
  }

  /** A sign in front of an unsigned decimal that starts with a digit. */
  lemma ParseSigned(neg: bool, body: string)
    requires |body| >= 1 && IsDigit(body[0]) && ParseUnsigned(body).Some?
    ensures var d := ParseUnsigned(body).value;
      ParseDecimal((if neg then "-" else "") + body) == Some(if neg then Decimal(-d.units, d.places) else d)
  {
    if neg {
      assert ("-" + body)[1..] == body;
    } else {
      assert "" + body == body;
    }
  }

  /** What `Fixed` writes reads back as `x` rounded to `places` decimals, with `x`'s sign. */
  lemma FixedReadsBack(x: real, places: nat)
    requires places >= 1
    ensures ParseDecimal(Fixed(x, places))
         == Some(Decimal(Signed(x, Units(x, places)), places))
  {
    FixedDigitsReadBack(Units(x, places), places);
    ParseSigned(x < 0.0, FixedDigits(Units(x, places), places));
  }

  /** Text that reads as a decimal holds only digits, signs and '.'. */
  lemma DecimalExcludes(s: string, c: char)
    requires ParseDecimal(s).Some? && !IsDigit(c) && c != '.' && c != '+' && c != '-'
    ensures c !in s
  {
    if |s| > 0 && (s[0] == '+' || s[0] == '-') {
      UnsignedExcludes(s[1..], c);
      assert s == [s[0]] + s[1..];
    } else {
      UnsignedExcludes(s, c);
    }
  }

  lemma UnsignedExcludes(s: string, c: char)
    requires ParseUnsigned(s).Some? && !IsDigit(c) && c != '.'
    ensures c !in s
  {
    var parts := Split(s, '.');
    JoinSplit(s, '.');
    DigitsExclude(parts[0], c);
    if |parts| == 2 {
      DigitsExclude(parts[1], c);
      assert Join(parts, ".") == parts[0] + "." + Join(parts[1..], ".");
      assert Join(parts[1..], ".") == parts[1];
    }
  }

  /** What `Fixed` writes with at least one decimal holds only digits, '-' and '.'. */
  lemma FixedExcludes(x: real, places: nat, c: char)
    requires places >= 1 && !IsDigit(c) && c != '.' && c != '+' && c != '-'
    ensures c !in Fixed(x, places)
  {
    FixedReadsBack(x, places);
    DecimalExcludes(Fixed(x, places), c);
  }

  /** `n` with the sign of `x`. */
  function Signed(x: real, n: nat): int
  {
    if x < 0.0 then -(n as int) else n as int
  }

  /** Rounding to units of the `places`-th decimal place moves a value by at most half a unit. */
  lemma RoundingError(x: real, places: nat)
    ensures Abs(Signed(x, Units(x, places)) as real / Pow10(places) as real - x) <= 0.5 / Pow10(places) as real
  {
    SignedRounding(x, Pow10(places) as real, Scaled(x, places), Units(x, places));
  }

  /** A count `n` within half a unit of `|x|` scaled by `q`, given `x`'s sign and divided back, is within half a unit over `q` of `x`. */
  lemma SignedRounding(x: real, q: real, y: real, n: nat)
    requires q >= 1.0 && y == Abs(x) * q && y - 0.5 <= n as real <= y + 0.5
    ensures Abs(Signed(x, n) as real / q - x) <= 0.5 / q
  {
    SignedReal(x, n);
    HalfUnit(Abs(x), q, y, n as real, x < 0.0, Signed(x, n) as real, x);
  }

  lemma SignedReal(x: real, n: nat)
    ensures Signed(x, n) as real == if x < 0.0 then -(n as real) else n as real
    ensures x == if x < 0.0 then -Abs(x) else Abs(x)
  {
  }

  lemma HalfUnit(a: real, q: real, y: real, n: real, neg: bool, signedN: real, x: real)
    requires q >= 1.0 && a >= 0.0 && y == a * q && y - 0.5 <= n <= y + 0.5
    requires signedN == (if neg then -n else n) && x == (if neg then -a else a)
    ensures Abs(signedN / q - x) <= 0.5 / q
  {
    var d := n - y;
    assert n / q - a == d / q by {
      assert (n / q - a) * q == d;
    }
    DivideBounds(d, q);
    if neg {
      assert -n / q - -a == -(d / q);
    }
  }

  lemma DivideBounds(d: real, q: real)
    requires q >= 1.0 && -0.5 <= d <= 0.5
    ensures -0.5 / q <= d / q <= 0.5 / q
  {
  }

  /**
   * What `Fixed` writes denotes `x` to within half a unit in its last place:
   * the written text parses back, and its value is that close to `x`.
   */
  lemma FixedAccurate(x: real, places: nat)
    requires places >= 1
    ensures ParseDecimal(Fixed(x, places)).Some?
    ensures Abs(ParseDecimal(Fixed(x, places)).value.Real() - x) <= 0.5 / Pow10(places) as real
  {
    var d := Decimal(Signed(x, Units(x, places)), places);
    assert ParseDecimal(Fixed(x, places)) == Some(d) by {
      FixedReadsBack(x, places);
    }
    assert Abs(d.Real() - x) <= 0.5 / Pow10(places) as real by {
      RoundingError(x, places);
    }
  }

  /** A value in whole units of the last place is counted exactly, with its sign. */
  lemma UnitsOfWhole(c: int, places: nat)
    ensures Signed(c as real / Pow10(places) as real, Units(c as real / Pow10(places) as real, places)) == c
  {
    var q := Pow10(places) as real;
    WholeCount(c, q, Scaled(c as real / q, places), Units(c as real / q, places));
  }

  lemma WholeCount(c: int, q: real, y: real, n: nat)
    requires q >= 1.0 && y == Abs(c as real / q) * q && n == RoundHalfEven(y)
    ensures Signed(c as real / q, n) == c
  {
    WholeQuotient(c, q);
    RoundWhole(if c < 0 then -c else c);
  }

  lemma WholeQuotient(c: int, q: real)
    requires q >= 1.0
    ensures Abs(c as real / q) * q == (if c < 0 then -c else c) as real
    ensures c as real / q < 0.0 <==> c < 0
  {
    var x := c as real / q;
    assert x * q == c as real;
  }

  lemma RoundWhole(m: nat)
    ensures RoundHalfEven(m as real) == m
  {
    assert (m as real).Floor == m;
  }

  /** An amount in whole units of the last place (whole cents for two places) is written exactly. */
  lemma FixedExact(c: int, places: nat)
    requires places >= 1
    ensures ParseDecimal(Fixed(c as real / Pow10(places) as real, places)) == Some(Decimal(c, places))
  {
    FixedReadsBack(c as real / Pow10(places) as real, places);
    UnitsOfWhole(c, places);
  }

  /** The Latin-1 part of Python's `str.lower()`: A-Z and U+00C0..U+00DE except U+00D7. */
  function LowerChar(c: char): char
  {
    if 'A' <= c <= 'Z' || ('\U{C0}' <= c <= '\U{DE}' && c != '\U{D7}') then (c as int + 32) as char else c
  }

  function Lower(s: string): (r: string)
    ensures |r| == |s| && forall i :: 0 <= i < |s| ==> r[i] == LowerChar(s[i])
  {
    if s == [] then [] else [LowerChar(s[0])] + Lower(s[1..])
  }
}
