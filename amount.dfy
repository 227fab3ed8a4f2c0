/**
 * The value typed into the form, in Brazilian notation ("1.000,00"): its conversion
 * to the notation Python's `float()` reads, and which strings `float()` accepts.
 */
module Amount {

  import opened Text

  /** `valor.replace('.', '').replace(',', '.')`. */
  function Normalize(v: string): (r: string)
    ensures |r| == |v| - Count(v, '.')
    ensures ',' !in r
  {
    ReplaceCharCounts(RemoveChar(v, '.'), ',', '.');
    ReplaceChar(RemoveChar(v, '.'), ',', '.')
  }

  /**
   * Normalising drops every thousands separator and turns each decimal comma into a
   * point: no comma is left, there are as many points as the input had commas, and
   * every other character is kept as often as it occurred.
   */
  lemma NormalizeSpec(v: string)
    ensures Count(Normalize(v), '.') == Count(v, ',')
    ensures forall c :: c != '.' && c != ',' ==> Count(Normalize(v), c) == Count(v, c)
  {
    RemoveCharCounts(v, '.');
    ReplaceCharCounts(RemoveChar(v, '.'), ',', '.');
  }

  /** The whitespace Python's `float()` strips from both ends (ASCII only). */
  predicate IsSpace(c: char) {
    c == ' ' || c == '\t' || c == '\n' || c == '\r' || c == '\U{000B}' || c == '\U{000C}'
  }

  function StripLeft(s: string): (r: string)
    ensures |r| <= |s|
    ensures r == [] || !IsSpace(r[0])
  {
    if s != [] && IsSpace(s[0]) then StripLeft(s[1..]) else s
  }

  function StripRight(s: string): (r: string)
    ensures |r| <= |s|
    ensures r == [] || !IsSpace(r[|r| - 1])
  {
    if s != [] && IsSpace(s[|s| - 1]) then StripRight(s[..|s| - 1]) else s
  }

  function Strip(s: string): string {
    StripRight(StripLeft(s))
  }

  /** The first position of `c` in `s`, or `|s|` when there is none. */
  function Find(s: string, c: char): (k: nat)
    ensures k <= |s| && c !in s[..k]
    ensures k < |s| ==> s[k] == c
  {
    if s == [] then 0
    else if s[0] == c then 0
    else
      assert s[..Find(s[1..], c) + 1] == [s[0]] + s[1..][..Find(s[1..], c)];
      1 + Find(s[1..], c)
  }

  /** `digitpart`: `digit (["_"] digit)*`, digits with single underscores between them. */
  predicate DigitPart(s: string) {
    && |s| > 0 && IsDigit(s[0])
    && (|s| == 1 || DigitPart(s[1..]) || (s[1] == '_' && DigitPart(s[2..])))
  }

  /** `digitpart | [digitpart] "." digitpart | digitpart "."`. */
  predicate Mantissa(s: string) {
    var k := Find(s, '.');
    if k == |s| then DigitPart(s)
    else
      var whole, fraction := s[..k], s[k + 1..];
      && (whole == [] || DigitPart(whole))
      && (fraction == [] || DigitPart(fraction))
      && (whole != [] || fraction != [])
  }

  /** A mantissa, optionally followed by `e` or `E`, an optional sign and a digitpart. */
  predicate Numeral(s: string) {
    var k := Find(ReplaceChar(s, 'E', 'e'), 'e');
    if k == |s| then Mantissa(s)
    else
      var exponent := s[k + 1..];
      var digits := if exponent != [] && (exponent[0] == '+' || exponent[0] == '-') then exponent[1..] else exponent;
      Mantissa(s[..k]) && DigitPart(digits)
  }

  function LowerAscii(s: string): (r: string)
    ensures |r| == |s|
    ensures forall i :: 0 <= i < |s| ==> r[i] == if 'A' <= s[i] <= 'Z' then (s[i] as int + 32) as char else s[i]
  {
    if s == [] then []
    else [if 'A' <= s[0] <= 'Z' then (s[0] as int + 32) as char else s[0]] + LowerAscii(s[1..])
  }

  /** `inf`, `infinity` and `nan`, in any letter case. */
  predicate SpecialName(s: string) {
    var l := LowerAscii(s);
    l == "inf" || l == "infinity" || l == "nan"
  }

  function DropSign(t: string): string {
    if t != [] && (t[0] == '+' || t[0] == '-') then t[1..] else t
  }

  /** What `float()` reads after stripping whitespace and one leading sign. */
  function Unsigned(s: string): string {
    DropSign(Strip(s))
  }

  /** Whether Python's `float(s)` returns a number rather than raising ValueError. */
  predicate ParsesAsFloat(s: string)
    ensures ParsesAsFloat(s) ==> Unsigned(s) != []
  {
    SpecialName(Unsigned(s)) || Numeral(Unsigned(s))
  }

  /** Whether every character of the typed value is a digit, a point or a comma. */
  predicate LocalNotation(v: string) {
    forall i :: 0 <= i < |v| ==> IsDigit(v[i]) || v[i] == '.' || v[i] == ','
  }

  predicate HasDigit(s: string) {
    exists i :: 0 <= i < |s| && IsDigit(s[i])
  }

  /** Characters of the normalised value: only digits and points remain. */
  lemma NormalizedAlphabet(v: string)
    requires LocalNotation(v)
    ensures DigitsAndPoints(Normalize(v))
    ensures HasDigit(Normalize(v)) <==> HasDigit(v)
  {
    var removed := RemoveChar(v, '.');
    var s := Normalize(v);
    RemoveCharCounts(v, '.');
    forall i | 0 <= i < |removed| ensures IsDigit(removed[i]) || removed[i] == ',' {
      assert removed[i] in v;
    }
    NormalizeSpec(v);
    if HasDigit(v) {
      var i :| 0 <= i < |v| && IsDigit(v[i]);
      assert Count(v, v[i]) > 0;
      assert v[i] in s;
    }
    if HasDigit(s) {
      var i :| 0 <= i < |s| && IsDigit(s[i]);
      assert Count(s, s[i]) > 0;
      assert s[i] in v;
    }
  }

  /** A digit string is a `digitpart` exactly when it is not empty. */
  lemma {:induction false} DigitsArePart(x: string)
    requires AllDigits(x)
    ensures DigitPart(x) <==> x != []
  {
    if |x| > 1 {
      DigitsArePart(x[1..]);
    }
  }

  predicate DigitsAndPoints(s: string) {
    forall i :: 0 <= i < |s| ==> IsDigit(s[i]) || s[i] == '.'
  }

  lemma CountAround(s: string, k: nat, c: char)
    requires k < |s|
    ensures Count(s, c) == Count(s[..k], c) + (if s[k] == c then 1 else 0) + Count(s[k + 1..], c)
  {
    assert s == s[..k] + [s[k]] + s[k + 1..];
    CountAppend(s[..k] + [s[k]], s[k + 1..], c);
    CountAppend(s[..k], [s[k]], c);
  }

  /** Without a point, a string of digits and points is a digit string. */
  lemma PointFreeIsDigits(x: string)
    requires DigitsAndPoints(x) && '.' !in x
    ensures AllDigits(x)
    ensures HasDigit(x) <==> x != []
  {
    if x != [] {
      assert IsDigit(x[0]);
    }
  }

  /** A point anywhere in a string stops it from being a `digitpart`. */
  lemma {:induction false} PointBreaksDigitPart(x: string, j: nat)
    requires j < |x| && x[j] == '.'
    ensures !DigitPart(x)
  {
    if j >= 1 {
      PointBreaksDigitPart(x[1..], j - 1);
      if j >= 2 && x[1] == '_' {
        PointBreaksDigitPart(x[2..], j - 2);
      }
    }
  }

  lemma MantissaWithoutPoint(s: string)
    requires DigitsAndPoints(s) && '.' !in s
    ensures Mantissa(s) <==> HasDigit(s)
  {
    PointFreeIsDigits(s);
    DigitsArePart(s);
  }

  lemma MantissaWithOnePoint(s: string)
    requires DigitsAndPoints(s)
    requires Find(s, '.') < |s| && '.' !in s[Find(s, '.') + 1..]
    ensures Mantissa(s) <==> HasDigit(s)
  {
    var k := Find(s, '.');
    var whole, fraction := s[..k], s[k + 1..];
    assert DigitsAndPoints(whole) && DigitsAndPoints(fraction);
    PointFreeIsDigits(whole);
    DigitsArePart(whole);
    PointFreeIsDigits(fraction);
    DigitsArePart(fraction);
    if HasDigit(s) {
      var i :| 0 <= i < |s| && IsDigit(s[i]);
      assert i < k ==> whole[i] == s[i];
      assert i > k ==> fraction[i - k - 1] == s[i];
    }
    if whole != [] {
      assert IsDigit(s[0]);
    }
    if fraction != [] {
      assert IsDigit(s[k + 1]);
    }
  }

  lemma MantissaWithTwoPoints(s: string)
    requires Find(s, '.') < |s| && '.' in s[Find(s, '.') + 1..]
    ensures !Mantissa(s)
  {
    var k := Find(s, '.');
    var fraction := s[k + 1..];
    var j :| 0 <= j < |fraction| && fraction[j] == '.';
    PointBreaksDigitPart(fraction, j);
    BadFraction(s);
  }

  /** A point followed by a non-empty fraction that is not a `digitpart` is no mantissa. */
  lemma BadFraction(s: string)
    requires Find(s, '.') < |s|
    requires !DigitPart(s[Find(s, '.') + 1..]) && s[Find(s, '.') + 1..] != []
    ensures !Mantissa(s)
  {
  }

  /** On a string of digits and points, a mantissa has at most one point and some digit. */
  lemma MantissaOfDigitsAndPoints(s: string)
    requires DigitsAndPoints(s)
    ensures Mantissa(s) <==> Count(s, '.') <= 1 && HasDigit(s)
  {
    var k := Find(s, '.');
    if k == |s| {
      assert s[..k] == s;
      MantissaWithoutPoint(s);
    } else {
      CountAround(s, k, '.');
      if '.' in s[k + 1..] {
        MantissaWithTwoPoints(s);
      } else {
        MantissaWithOnePoint(s);
      }
    }
  }

  lemma StripUnspaced(s: string)
    requires s != [] ==> !IsSpace(s[0]) && !IsSpace(s[|s| - 1])
    ensures Strip(s) == s
  {
  }

  lemma NotSpecialName(s: string)
    requires s != [] ==> IsDigit(s[0]) || s[0] == '.'
    ensures !SpecialName(s)
  {
    if s != [] {
      assert LowerAscii(s)[0] == s[0];
    }
  }

  lemma NoExponent(s: string)
    requires 'e' !in s && 'E' !in s
    ensures Numeral(s) == Mantissa(s)
  {
    assert 'e' !in ReplaceChar(s, 'E', 'e');
  }

  /** A string of digits and points has no whitespace, sign, exponent or special name to read. */
  lemma DigitsAndPointsAreMantissa(s: string)
    requires DigitsAndPoints(s)
    ensures ParsesAsFloat(s) <==> Mantissa(s)
  {
    StripUnspaced(s);
    assert DropSign(s) == s;
    NotSpecialName(s);
    assert 'e' !in s && 'E' !in s;
    NoExponent(s);
  }

  /**
   * A value typed with digits, thousands points and decimal commas is accepted by
   * `float()` after normalisation exactly when it has at most one comma and at least
   * one digit: "1.000,00" is accepted, "1,000,00" and "." are rejected.
   */
  lemma LocalNotationAccepted(v: string)
    requires LocalNotation(v)
    ensures ParsesAsFloat(Normalize(v)) <==> Count(v, ',') <= 1 && HasDigit(v)
  {
    NormalizedAlphabet(v);
    NormalizeSpec(v);
    DigitsAndPointsAreMantissa(Normalize(v));
    MantissaOfDigitsAndPoints(Normalize(v));
  }

  /** The help text's example "1.000,00" becomes "1000.00". */
  lemma NormalizeExample()
    ensures Normalize("1.000,00") == "1000.00"
  {
    RemoveExample();
    ReplaceExample();
  }

  lemma RemovePointExample()
    ensures RemoveChar(".000,00", '.') == "000,00"
  {
    RemoveAbsent("000,00", '.');
    assert ".000,00"[1..] == "000,00";
  }

  lemma RemoveExample()
    ensures RemoveChar("1.000,00", '.') == "1000,00"
  {
    RemovePointExample();
    var s := "1.000,00";
    assert s[0] == '1' && s[1..] == ".000,00";
    var r := "1000,00";
    assert r == [r[0]] + r[1..];
    assert r[0] == '1' && r[1..] == "000,00";
  }

  lemma ReplaceExample()
    ensures ReplaceChar("1000,00", ',', '.') == "1000.00"
  {
  }

  /** ... and that string is accepted by `float()`. */
  lemma AcceptedExample()
    ensures ParsesAsFloat(Normalize("1.000,00"))
  {
    ExampleIsLocalNotation();
    LocalNotationAccepted("1.000,00");
  }

  lemma ExampleIsLocalNotation()
    ensures LocalNotation("1.000,00") && HasDigit("1.000,00") && Count("1.000,00", ',') == 1
  {
    assert IsDigit("1.000,00"[0]);
  }

  /** Letters are refused: "abc" has no number to read. */
  lemma RejectedExample()
    ensures !ParsesAsFloat(Normalize("abc"))
  {
    var v := "abc";
    RemoveAbsent(v, '.');
    assert ReplaceChar(v, ',', '.') == v;
    StripUnspaced(v);
    assert Unsigned(v) == v;
    assert LowerAscii(v) == v;
    assert ReplaceChar(v, 'E', 'e') == v;
    assert Find(v, 'e') == 3 && Find(v, '.') == 3;
    assert !DigitPart(v);
  }
}
