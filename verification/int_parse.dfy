/** Python's `int(text)` in base 10, and decimal rendering as its inverse. */
module IntParse {
  import opened Basics
  import opened Whitespace

  predicate IsDigit(c: char) {
    '0' <= c <= '9'
  }

  function DigitValue(c: char): nat
    requires IsDigit(c)
  {
    c as int - '0' as int
  }

  /** The digits `int()` accepts: ASCII digits, with single underscores
      allowed between two digits. */
  predicate IsNumeral(s: string) {
    && |s| > 0
    && IsDigit(s[0])
    && IsDigit(s[|s| - 1])
    && (forall i :: 0 <= i < |s| ==> IsDigit(s[i]) || s[i] == '_')
    && (forall i :: 0 <= i < |s| - 1 ==> s[i] != '_' || s[i + 1] != '_')
  }

  /** The value of a run of digits and underscores, underscores skipped. */
  function NumeralValue(s: string): nat
    requires forall i :: 0 <= i < |s| ==> IsDigit(s[i]) || s[i] == '_'
  {
    if |s| == 0 then 0
    else if s[|s| - 1] == '_' then NumeralValue(s[..|s| - 1])
    else 10 * NumeralValue(s[..|s| - 1]) + DigitValue(s[|s| - 1])
  }

  /** The number of digits in a run of digits and underscores. */
  function DigitCount(s: string): nat {
    if |s| == 0 then 0
    else DigitCount(s[..|s| - 1]) + (if IsDigit(s[|s| - 1]) then 1 else 0)
  }

  /** CPython's default `sys.int_info.default_max_str_digits`: `int()` refuses
      a decimal numeral with more digits than this, and `str()` refuses to
      render an integer that would need more. */
  const MaxStrDigits: nat := 4300

  /** The information separators U+001C..U+001F. `str.isspace()` holds for
      them, so `str.strip()` and `\s` treat them as whitespace, but `int()`
      skips only the other whitespace characters and refuses these wherever
      they stand. */
  predicate IsSeparator(c: char) {
    '\U{1C}' <= c <= '\U{1F}'
  }

  predicate NoSeparators(s: string) {
    forall i :: 0 <= i < |s| ==> !IsSeparator(s[i])
  }

  /** `int(s)`: surrounding whitespace is ignored, one optional sign, then a
      numeral of at most `MaxStrDigits` digits; anything else, an
      information separator included, raises `ValueError`, modelled as
      `None`. */
  function ParseInt(s: string): (r: Option<int>)
    ensures r.Some? ==> exists i :: 0 <= i < |s| && IsDigit(s[i])
    ensures r.Some? && '-' !in s ==> r.value >= 0
    ensures r.Some? ==> NoSeparators(s)
  {
    if !NoSeparators(s) then None
    else
      var t := Strip(s);
      var r := ParseSigned(t);
      StripSpec(s);
      var k := LeadingSpaces(s);
      assert forall i :: 0 <= i < |t| ==> t[i] == s[k + i];
      r
  }

  /** `int()` on text with no surrounding whitespace. */
  function ParseSigned(t: string): (r: Option<int>)
    ensures r.Some? ==> exists i :: 0 <= i < |t| && IsDigit(t[i])
    ensures r.Some? && '-' !in t ==> r.value >= 0
  {
    if |t| > 0 && (t[0] == '+' || t[0] == '-') then
      if IsNumeral(t[1..]) && DigitCount(t[1..]) <= MaxStrDigits then
        assert IsDigit(t[1]);
        var v: int := NumeralValue(t[1..]);
        Some(if t[0] == '-' then -v else v)
      else None
    else if IsNumeral(t) && DigitCount(t) <= MaxStrDigits then
      assert IsDigit(t[0]);
      Some(NumeralValue(t))
    else None
  }

  /** Decimal rendering of a natural number, without leading zeros. */
  function ShowNat(n: nat): (r: string)
    ensures |r| > 0
    ensures forall i :: 0 <= i < |r| ==> IsDigit(r[i])
  {
    if n < 10 then [('0' as int + n) as char]
    else ShowNat(n / 10) + [('0' as int + n % 10) as char]
  }

  /** Decimal rendering of an integer: `str(n)`. */
  function Show(n: int): string {
    if n < 0 then "-" + ShowNat(-n) else ShowNat(n)
  }

  /** A rendered natural number is a numeral of that value. */
  lemma {:induction false} ShowNatValue(n: nat)
    ensures IsNumeral(ShowNat(n))
    ensures NumeralValue(ShowNat(n)) == n
  {
    var r := ShowNat(n);
    if n >= 10 {
      ShowNatValue(n / 10);
      assert r[..|r| - 1] == ShowNat(n / 10);
    }
  }

  /** Every character of a rendered natural number counts as a digit. */
  lemma {:induction false} ShowNatDigits(n: nat)
    ensures DigitCount(ShowNat(n)) == |ShowNat(n)|
  {
    var r := ShowNat(n);
    if n >= 10 {
      ShowNatDigits(n / 10);
      assert r[..|r| - 1] == ShowNat(n / 10);
    }
  }

  /** `str(n)` succeeds: the rendering of `n` fits the digit limit. */
  predicate Renderable(n: int) {
    |ShowNat(if n < 0 then -n else n)| <= MaxStrDigits
  }

  /** A rendered natural number holds neither whitespace nor a sign. */
  lemma ShowNatPlain(n: nat)
    ensures forall i :: 0 <= i < |ShowNat(n)| ==> !IsSpace(ShowNat(n)[i])
    ensures '-' !in ShowNat(n) && '+' !in ShowNat(n)
  {
  }

  /** `int(str(n)) == n` for every natural number `n` that `str` renders. */
  lemma ParseShowNat(n: nat)
    requires Renderable(n)
    ensures ParseInt(ShowNat(n)) == Some(n)
  {
    var s := ShowNat(n);
    ShowNatValue(n);
    ShowNatDigits(n);
    ShowNatPlain(n);
    StripPlain(s);
    assert s[0] != '+' && s[0] != '-';
    assert ParseSigned(s) == Some(n);
  }

  /** `int(str(n)) == n` for every integer `n` that `str` renders. */
  lemma ParseShow(n: int)
    requires Renderable(n)
    ensures ParseInt(Show(n)) == Some(n)
  {
    if n >= 0 {
      assert Show(n) == ShowNat(n);
      ParseShowNat(n);
    } else {
      assert Show(n) == "-" + ShowNat(-n);
      ParseShowNeg(-n);
    }
  }

  /** The negative half of `ParseShow`. */
  lemma ParseShowNeg(m: nat)
    requires |ShowNat(m)| <= MaxStrDigits
    ensures ParseInt("-" + ShowNat(m)) == Some(-(m as int))
  {
    ShowNatValue(m);
    ShowNatDigits(m);
    ParseNegative(ShowNat(m), m);
  }

  /** A minus sign in front of a numeral of value `v` within the digit
      limit. */
  lemma ParseNegative(x: string, v: nat)
    requires IsNumeral(x) && DigitCount(x) <= MaxStrDigits && NumeralValue(x) == v
    ensures ParseInt("-" + x) == Some(-(v as int))
  {
    var s := "-" + x;
    assert s[0] == '-' && s[1..] == x;
    assert s[|s| - 1] == x[|x| - 1];
    StripPlain(s);
  }

  /** A numeral with more digits than the limit is refused, whatever
      whitespace surrounds it. */
  lemma TooManyDigits(s: string)
    requires IsNumeral(Strip(s)) && DigitCount(Strip(s)) > MaxStrDigits
    ensures ParseInt(s) == None
  {
    var t := Strip(s);
    assert IsDigit(t[0]);
  }

  /** `int()` sees a text only through its strip, unless the text holds an
      information separator, which `strip()` removes and `int()` refuses. */
  lemma ParseStripped(s: string)
    ensures ParseInt(s) == if NoSeparators(s) then ParseInt(Strip(s)) else None
  {
    if NoSeparators(s) {
      StripSpec(s);
      StripIdempotent(s);
    }
  }

  /** Trimming either end first changes nothing about a text `int()`
      accepts. */
  lemma ParseTrimmed(x: string)
    requires ParseInt(x).Some?
    ensures ParseInt(TrimStart(x)) == ParseInt(x)
    ensures ParseInt(TrimEnd(x)) == ParseInt(x)
  {
    ParseStripped(x);
    ParseStripped(TrimStart(x));
    StripTrimStart(x);
    ParseStripped(TrimEnd(x));
    StripTrimEnd(x);
  }

  /** `int()` ignores whitespace around a rendered number, except the
      information separators. */
  lemma ParsePaddedNat(w1: string, n: nat, w2: string)
    requires forall i :: 0 <= i < |w1| ==> IsSpace(w1[i])
    requires forall i :: 0 <= i < |w2| ==> IsSpace(w2[i])
    requires Renderable(n)
    ensures ParseInt(w1 + ShowNat(n) + w2) == if NoSeparators(w1) && NoSeparators(w2) then Some(n) else None
  {
    var x := ShowNat(n);
    var s := w1 + x + w2;
    ParseShowNat(n);
    ShowNatPlain(n);
    StripPlain(x);
    StripPadded(w1, x, w2);
    ParseStripped(s);
    assert NoSeparators(s) <==> NoSeparators(w1) && NoSeparators(w2) by {
      assert forall i :: 0 <= i < |w1| ==> s[i] == w1[i];
      assert forall i :: 0 <= i < |x| ==> s[|w1| + i] == x[i];
      assert forall i :: 0 <= i < |w2| ==> s[|w1| + |x| + i] == w2[i];
    }
  }
}
