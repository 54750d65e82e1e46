/** The amount normaliser of `app/utils.py`: a Brazilian-formatted amount
    ("1.234,56") is rewritten into a decimal literal ("1234.56") and parsed
    as an exact decimal, the way Python's `decimal.Decimal(str)` does. */
module Amount {
  import opened Wrappers
  import opened Text

  /** A `decimal.Decimal`: sign, integer coefficient and power-of-ten
      exponent (so "1234.56" is coefficient 123456, exponent -2), or one of
      the special values the constructor also accepts. */
  datatype Decimal =
    | Finite(negative: bool, coefficient: nat, exponent: int)
    | Infinite(negative: bool)
    | NotANumber(negative: bool, signaling: bool, payload: nat)

  /** `decimal.InvalidOperation` raised for text that is not a numeric string. */
  datatype AmountError = ConversionSyntax(text: string)

  /** The rational number a finite decimal denotes. */
  function Value(d: Decimal): real
    requires d.Finite?
  {
    var magnitude :=
      if d.exponent >= 0 then (d.coefficient * Pow10(d.exponent)) as real
      else d.coefficient as real / Pow10(-d.exponent) as real;
    if d.negative then -magnitude else magnitude
  }

  /** `str.replace(x, "")`: every `x` deleted, every other character kept. */
  function RemoveChar(s: string, x: char): (r: string)
    ensures x !in r
    ensures |r| <= |s|
  {
    if |s| == 0 then []
    else (if s[0] == x then [] else [s[0]]) + RemoveChar(s[1..], x)
  }

  /** Deleting characters distributes over concatenation, so the kept
      characters stay in their original order. */
  lemma {:induction false} RemoveCharAppend(a: string, b: string, x: char)
    ensures RemoveChar(a + b, x) == RemoveChar(a, x) + RemoveChar(b, x)
    decreases |a|
  {
    if |a| == 0 {
      assert a + b == b;
    } else {
      assert (a + b)[1..] == a[1..] + b;
      RemoveCharAppend(a[1..], b, x);
    }
  }

  lemma {:induction false} RemoveCharIdentity(s: string, x: char)
    requires x !in s
    ensures RemoveChar(s, x) == s
    decreases |s|
  {
    if |s| > 0 {
      RemoveCharIdentity(s[1..], x);
      assert s == [s[0]] + s[1..];
    }
  }

  /** `str.replace(",", ".")`. */
  function CommaToPoint(s: string): (r: string)
    ensures |r| == |s|
    ensures ',' !in r
    ensures forall i :: 0 <= i < |s| ==> (r[i] == '.' <==> s[i] == '.' || s[i] == ',')
    ensures forall i :: 0 <= i < |s| && s[i] != ',' ==> r[i] == s[i]
  {
    seq(|s|, i requires 0 <= i < |s| => if s[i] == ',' then '.' else s[i])
  }

  /** The text rewrite of `normalize_valor`: thousands separators removed,
      then the decimal comma turned into a point. The points of the result
      sit exactly where the dot-free text had commas; nothing else moves. */
  function Rewrite(s: string): (r: string)
    ensures ',' !in r
    ensures |r| == |RemoveChar(s, '.')|
    ensures forall i :: 0 <= i < |r| ==> (r[i] == '.' <==> RemoveChar(s, '.')[i] == ',')
    ensures forall i :: 0 <= i < |r| && r[i] != '.' ==> r[i] == RemoveChar(s, '.')[i]
  {
    CommaToPoint(RemoveChar(s, '.'))
  }

  /** `[sign] digits`, the exponent after `e`/`E`. */
  function ParseExponent(s: string): Option<int> {
    var digits := if |s| > 0 && (s[0] == '+' || s[0] == '-') then s[1..] else s;
    if |digits| == 0 || !AllDigits(digits) then None
    else
      var magnitude: int := DigitsValue(digits);
      Some(if s[0] == '-' then -magnitude else magnitude)
  }

  /** `body` cut at its first `e` or `E`: the mantissa, and the exponent
      text when there is one. */
  function ExponentSplit(body: string): (string, Option<string>) {
    var k := IndexOf(Lower(body), 'e');
    if k == |body| then (body, None) else (body[..k], Some(body[k + 1..]))
  }

  /** A mantissa cut at its first point: the integer and the fraction digits. */
  function PointSplit(mantissa: string): (string, string) {
    var p := IndexOf(mantissa, '.');
    if p == |mantissa| then (mantissa, []) else (mantissa[..p], mantissa[p + 1..])
  }

  /** `digits [. [digits]] | . digits`, optionally followed by an exponent. */
  function ParseFinite(negative: bool, body: string): Option<Decimal> {
    var (mantissa, exponentText) := ExponentSplit(body);
    var (whole, frac) := PointSplit(mantissa);
    if !AllDigits(whole) || !AllDigits(frac) || |whole| + |frac| == 0 then None
    else
      var exponent := if exponentText.None? then Some(0) else ParseExponent(exponentText.value);
      match exponent
      case None => None
      case Some(e) => Some(Finite(negative, DigitsValue(whole + frac), e - |frac|))
  }

  /** An unsigned numeric string: infinity, a (signalling) NaN with an
      optional digit payload, or a finite number. */
  function ParseUnsigned(negative: bool, body: string): Option<Decimal> {
    var folded := Lower(body);
    if folded == "inf" || folded == "infinity" then Some(Infinite(negative))
    else if |body| >= 3 && folded[..3] == "nan" && AllDigits(body[3..]) then
      Some(NotANumber(negative, false, DigitsValue(body[3..])))
    else if |body| >= 4 && folded[..4] == "snan" && AllDigits(body[4..]) then
      Some(NotANumber(negative, true, DigitsValue(body[4..])))
    else ParseFinite(negative, body)
  }

  /** `decimal.Decimal(s)`: surrounding whitespace stripped, grouping
      underscores ignored, an optional sign, then an unsigned numeric
      string; anything else raises. */
  function ParseDecimal(s: string): Result<Decimal, AmountError> {
    var (negative, body) := SignSplit(RemoveChar(Strip(s), '_'));
    match ParseUnsigned(negative, body)
    case Some(d) => Ok(d)
    case None => Err(ConversionSyntax(s))
  }

  /** An optional leading sign: whether it is a minus, and the rest. */
  function SignSplit(t: string): (bool, string) {
    if |t| > 0 && (t[0] == '+' || t[0] == '-') then (t[0] == '-', t[1..]) else (false, t)
  }

  /** `normalize_valor` on one cell: a null amount becomes "0", the text is
      rewritten, and the result parsed as an exact decimal. */
  function NormalizeValor(cell: Option<string>): Result<Decimal, AmountError> {
    ParseDecimal(Rewrite(cell.GetOr("0")))
  }

  function Sign(negative: bool): string {
    if negative then "-" else ""
  }

  /** Characters a plain decimal literal is written with. */
  predicate PlainChar(c: char) {
    IsDigit(c) || c == '.' || c == '-'
  }

  lemma PlainCharLower(c: char)
    requires PlainChar(c)
    ensures LowerChar(c) == c
  {
  }

  lemma PlainTextUntouched(t: string)
    requires forall i :: 0 <= i < |t| ==> PlainChar(t[i])
    requires |t| > 0 && t[|t| - 1] != '-'
    ensures Strip(t) == t
    ensures RemoveChar(t, '_') == t
    ensures Lower(t) == t
  {
    PlainUnderscores(t);
    PlainStrip(t);
    PlainLower(t);
  }

  lemma PlainUnderscores(t: string)
    requires forall i :: 0 <= i < |t| ==> PlainChar(t[i])
    ensures RemoveChar(t, '_') == t
  {
    assert '_' !in t;
    RemoveCharIdentity(t, '_');
  }

  lemma PlainStrip(t: string)
    requires forall i :: 0 <= i < |t| ==> PlainChar(t[i])
    requires |t| > 0 && t[|t| - 1] != '-'
    ensures Strip(t) == t
  {
    assert PlainChar(t[0]) && PlainChar(t[|t| - 1]);
    assert Trimmed(t);
    StripUnique([], t, []);
    assert [] + t + [] == t;
  }

  lemma PlainLower(t: string)
    requires forall i :: 0 <= i < |t| ==> PlainChar(t[i])
    ensures Lower(t) == t
  {
    forall i | 0 <= i < |t| ensures Lower(t)[i] == t[i] {
      PlainCharLower(t[i]);
    }
  }

  /** A text starting with a digit is not a special value. */
  lemma NotSpecial(negative: bool, body: string)
    requires |body| > 0 && IsDigit(body[0])
    ensures ParseUnsigned(negative, body) == ParseFinite(negative, body)
  {
    var folded := Lower(body);
    assert folded[0] == body[0];
    assert folded != "inf" && folded != "infinity";
    assert !(|body| >= 3 && folded[..3] == "nan");
    assert !(|body| >= 4 && folded[..4] == "snan");
  }

  lemma ExponentSplitPlain(body: string)
    requires Lower(body) == body && 'e' !in body
    ensures ExponentSplit(body) == (body, None)
  {
    IndexOfAbsent(body, 'e');
  }

  lemma PointSplitPlain(whole: string, frac: string, point: bool)
    requires '.' !in whole
    requires !point ==> frac == []
    ensures PointSplit(if point then whole + "." + frac else whole) == (whole, frac)
  {
    var m := if point then whole + "." + frac else whole;
    if point {
      assert m[..|whole|] == whole;
      IndexOfAt(m, '.', |whole|);
      assert m[|whole| + 1..] == frac;
    } else {
      IndexOfAbsent(m, '.');
    }
  }

  lemma ParseFiniteOfSplits(negative: bool, body: string, whole: string, frac: string)
    requires ExponentSplit(body) == (body, None)
    requires PointSplit(body) == (whole, frac)
    requires AllDigits(whole) && |whole| > 0 && AllDigits(frac)
    ensures ParseFinite(negative, body) == Some(Finite(negative, DigitsValue(whole + frac), -|frac|))
  {
  }

  lemma PlainBody(whole: string, frac: string, point: bool)
    requires AllDigits(whole) && AllDigits(frac)
    ensures var body := if point then whole + "." + frac else whole;
      Lower(body) == body && 'e' !in body
  {
    var body := if point then whole + "." + frac else whole;
    assert forall i :: 0 <= i < |body| ==> PlainChar(body[i]);
    PlainLower(body);
  }

  /** A digit string with an optional fraction. */
  lemma ParseUnsignedPlain(negative: bool, body: string, whole: string, frac: string, point: bool)
    requires AllDigits(whole) && |whole| > 0 && AllDigits(frac)
    requires body == (if point then whole + "." + frac else whole)
    requires !point ==> frac == []
    ensures ParseUnsigned(negative, body) == Some(Finite(negative, DigitsValue(whole + frac), -|frac|))
  {
    PlainBody(whole, frac, point);
    assert body[0] == whole[0];
    NotSpecial(negative, body);
    ExponentSplitPlain(body);
    assert '.' !in whole;
    PointSplitPlain(whole, frac, point);
    ParseFiniteOfSplits(negative, body, whole, frac);
  }

  lemma PlainSigned(negative: bool, body: string)
    requires forall i :: 0 <= i < |body| ==> PlainChar(body[i])
    requires |body| > 0 && IsDigit(body[0]) && body[|body| - 1] != '-'
    ensures RemoveChar(Strip(Sign(negative) + body), '_') == Sign(negative) + body
  {
    var t := Sign(negative) + body;
    assert forall i :: 0 <= i < |t| ==> PlainChar(t[i]);
    PlainStrip(t);
    PlainUnderscores(t);
  }

  lemma SignSplitOfSign(negative: bool, body: string)
    requires |body| > 0 && IsDigit(body[0])
    ensures SignSplit(Sign(negative) + body) == (negative, body)
  {
    var t := Sign(negative) + body;
    if negative {
      assert t[1..] == body;
    } else {
      assert t == body;
    }
  }

  /** `decimal.Decimal` on a plain literal `[-]digits[.digits]` yields the
      coefficient of all its digits and minus the fraction length as exponent. */
  lemma ParsePlain(negative: bool, whole: string, frac: string, point: bool)
    requires AllDigits(whole) && |whole| > 0 && AllDigits(frac)
    requires !point ==> frac == []
    ensures AllDigits(whole + frac)
    ensures var body := if point then whole + "." + frac else whole;
      ParseDecimal(Sign(negative) + body) == Ok(Finite(negative, DigitsValue(whole + frac), -|frac|))
  {
    var body := if point then whole + "." + frac else whole;
    PlainBodyChars(whole, frac, point);
    PlainSigned(negative, body);
    SignSplitOfSign(negative, body);
    ParseUnsignedPlain(negative, body, whole, frac, point);
    var t := Sign(negative) + body;
    AllDigitsAppend(whole, frac);
    var d := Finite(negative, DigitsValue(whole + frac), -|frac|);
    var clean := RemoveChar(Strip(t), '_');
    assert clean == t;
    assert SignSplit(clean) == (negative, body);
    ParseDecimalOfParts(t, negative, body, d);
  }

  lemma ParseDecimalOfParts(s: string, negative: bool, body: string, d: Decimal)
    requires SignSplit(RemoveChar(Strip(s), '_')) == (negative, body)
    requires ParseUnsigned(negative, body) == Some(d)
    ensures ParseDecimal(s) == Ok(d)
  {
  }

  lemma PlainBodyChars(whole: string, frac: string, point: bool)
    requires AllDigits(whole) && |whole| > 0 && AllDigits(frac)
    ensures var body := if point then whole + "." + frac else whole;
      && (forall i :: 0 <= i < |body| ==> PlainChar(body[i]))
      && IsDigit(body[0]) && body[|body| - 1] != '-'
  {
  }

  /** A finite decimal with a non-positive exponent written the way the
      input file writes amounts: an optional minus, the integer digits, and a
      comma before exactly `-exponent` fraction digits ("1234,56", "0,05"). */
  function FormatBr(d: Decimal): string
    requires d.Finite? && d.exponent <= 0
  {
    var scale := -d.exponent;
    var padded := PadDigits(d.coefficient, scale + 1);
    var cut := |padded| - scale;
    Sign(d.negative) + padded[..cut] + (if scale > 0 then "," + padded[cut..] else "")
  }

  /** The digits of `n`, left-padded with zeros to at least `width`. */
  function PadDigits(n: nat, width: nat): (r: string)
    ensures AllDigits(r) && |r| >= width && |r| >= 1
    ensures DigitsValue(r) == n
  {
    var digits := NatDigits(n);
    DigitsNatRoundTrip(n);
    if |digits| >= width then digits
    else
      LeadingZeros(width - |digits|, digits);
      Zeros(width - |digits|) + digits
  }

  lemma RewriteWithoutPoints(s: string)
    requires '.' !in s
    ensures Rewrite(s) == CommaToPoint(s)
  {
    RemoveCharIdentity(s, '.');
  }

  lemma CommaToPointBr(sign: string, whole: string, frac: string, point: bool)
    requires sign == "" || sign == "-"
    requires AllDigits(whole) && AllDigits(frac)
    ensures CommaToPoint(sign + whole + (if point then "," + frac else ""))
         == sign + (if point then whole + "." + frac else whole)
  {
    var s := sign + whole + (if point then "," + frac else "");
    var r := sign + (if point then whole + "." + frac else whole);
    assert |CommaToPoint(s)| == |r|;
    forall i | 0 <= i < |r| ensures CommaToPoint(s)[i] == r[i] {
      if i < |sign| {
        assert s[i] == sign[i] == r[i];
      } else if i < |sign| + |whole| {
        assert s[i] == whole[i - |sign|] == r[i];
      } else if i == |sign| + |whole| {
        assert s[i] == ',' && r[i] == '.';
      } else {
        assert s[i] == frac[i - |sign| - |whole| - 1] == r[i];
      }
    }
  }

  /** The pieces `FormatBr` writes: integer digits and fraction digits
      whose concatenation denotes the coefficient. */
  lemma FormatBrShape(d: Decimal) returns (whole: string, frac: string, point: bool)
    requires d.Finite? && d.exponent <= 0
    ensures AllDigits(whole) && |whole| > 0 && AllDigits(frac)
    ensures point <==> d.exponent < 0
    ensures !point ==> frac == []
    ensures |frac| == -d.exponent
    ensures AllDigits(whole + frac) && DigitsValue(whole + frac) == d.coefficient
    ensures FormatBr(d) == Sign(d.negative) + whole + (if point then "," + frac else "")
  {
    var scale := -d.exponent;
    var padded := PadDigits(d.coefficient, scale + 1);
    var cut := |padded| - scale;
    whole, frac := padded[..cut], padded[cut..];
    point := scale > 0;
    assert padded == whole + frac;
  }

  /** Round trip: any finite decimal written in the file's comma notation
      normalises back to exactly that decimal, sign, coefficient and
      exponent included. */
  lemma BrazilianRoundTrip(d: Decimal)
    requires d.Finite? && d.exponent <= 0
    ensures NormalizeValor(Some(FormatBr(d))) == Ok(d)
  {
    var whole, frac, point := FormatBrShape(d);
    NormalizeBrParts(d, whole, frac, point);
  }

  lemma NormalizeBrParts(d: Decimal, whole: string, frac: string, point: bool)
    requires d.Finite?
    requires AllDigits(whole) && |whole| > 0 && AllDigits(frac)
    requires !point ==> frac == []
    requires |frac| == -d.exponent
    requires AllDigits(whole + frac) && DigitsValue(whole + frac) == d.coefficient
    ensures NormalizeValor(Some(Sign(d.negative) + whole + (if point then "," + frac else ""))) == Ok(d)
  {
    var text := Sign(d.negative) + whole + (if point then "," + frac else "");
    var plain := Sign(d.negative) + (if point then whole + "." + frac else whole);
    assert d == Finite(d.negative, DigitsValue(whole + frac), -|frac|);
    RewriteBr(d.negative, whole, frac, point);
    ParsePlain(d.negative, whole, frac, point);
    NormalizeVia(text, plain, d);
  }

  /** An amount normalises to what its rewrite parses to. */
  lemma NormalizeVia(text: string, plain: string, d: Decimal)
    requires Rewrite(text) == plain && ParseDecimal(plain) == Ok(d)
    ensures NormalizeValor(Some(text)) == Ok(d)
  {
  }

  /** Rewriting a comma-notation amount without points only turns its comma
      into a decimal point. */
  lemma RewriteBr(negative: bool, whole: string, frac: string, point: bool)
    requires AllDigits(whole) && AllDigits(frac)
    ensures Rewrite(Sign(negative) + whole + (if point then "," + frac else ""))
         == Sign(negative) + (if point then whole + "." + frac else whole)
  {
    var text := Sign(negative) + whole + (if point then "," + frac else "");
    assert '.' !in text;
    RewriteWithoutPoints(text);
    CommaToPointBr(Sign(negative), whole, frac, point);
  }

  /** Thousands points may sit anywhere: inserting a point into an amount
      never changes what it normalises to ("1.2.3,4" reads as 123.4). */
  lemma PointsIgnored(s: string, i: nat)
    requires i <= |s|
    ensures NormalizeValor(Some(s[..i] + "." + s[i..])) == NormalizeValor(Some(s))
  {
    var t := s[..i] + "." + s[i..];
    RemovePointInserted(s, i);
    assert Rewrite(t) == Rewrite(s);
    assert Some(t).GetOr("0") == t;
    assert Some(s).GetOr("0") == s;
  }

  lemma RemovePointInserted(s: string, i: nat)
    requires i <= |s|
    ensures RemoveChar(s[..i] + "." + s[i..], '.') == RemoveChar(s, '.')
  {
    var a, b := s[..i], s[i..];
    assert s == a + b;
    RemoveCharAppend(a + ".", b, '.');
    PointDropped(a);
    RemoveCharAppend(a, b, '.');
  }

  lemma PointDropped(a: string)
    ensures RemoveChar(a + ".", '.') == RemoveChar(a, '.')
  {
    RemoveCharAppend(a, ".", '.');
    assert RemoveChar(".", '.') == [];
    assert RemoveChar(a, '.') + [] == RemoveChar(a, '.');
  }

  /** A character other than the deleted one survives `RemoveChar`. */
  lemma {:induction false} KeepOne(s: string, x: char, i: nat) returns (k: nat)
    requires i < |s| && s[i] != x
    ensures k < |RemoveChar(s, x)| && RemoveChar(s, x)[k] == s[i]
    decreases |s|
  {
    if i == 0 {
      k := 0;
    } else {
      var k' := KeepOne(s[1..], x, i - 1);
      k := if s[0] == x then k' else k' + 1;
    }
  }

  /** Two occurrences of a kept character survive `RemoveChar` in order. */
  lemma {:induction false} KeepTwo(s: string, x: char, i: nat, j: nat) returns (i': nat, j': nat)
    requires i < j < |s| && s[i] == s[j] && s[i] != x
    ensures i' < j' < |RemoveChar(s, x)|
    ensures RemoveChar(s, x)[i'] == s[i] && RemoveChar(s, x)[j'] == s[i]
    decreases |s|
  {
    if i == 0 {
      var k := KeepOne(s[1..], x, j - 1);
      i', j' := 0, k + 1;
    } else {
      var a, b := KeepTwo(s[1..], x, i - 1, j - 1);
      if s[0] == x {
        i', j' := a, b;
      } else {
        i', j' := a + 1, b + 1;
      }
    }
  }

  /** An exponent containing a point is not an exponent. */
  lemma ExponentRejectsPoint(e: string, m: nat)
    requires m < |e| && e[m] == '.'
    ensures ParseExponent(e).None?
  {
    var digits := if |e| > 0 && (e[0] == '+' || e[0] == '-') then e[1..] else e;
    if digits == e {
      assert !IsDigit(digits[m]);
    } else {
      assert m >= 1 && digits[m - 1] == '.';
    }
  }

  /** A numeric string has at most one decimal point. */
  lemma FiniteRejectsTwoPoints(negative: bool, body: string, i: nat, j: nat)
    requires i < j < |body| && body[i] == '.' && body[j] == '.'
    ensures ParseFinite(negative, body).None?
  {
    var k := IndexOf(Lower(body), 'e');
    if k < |body| {
      assert Lower(body)[k] == LowerChar(body[k]) == 'e';
      assert body[k] != '.';
    }
    if j < k {
      var mantissa := body[..k];
      assert ExponentSplit(body).0 == mantissa;
      var p := IndexOf(mantissa, '.');
      assert mantissa[i] == '.';
      assert PointSplit(mantissa).1 == mantissa[p + 1..];
      assert mantissa[p + 1..][j - p - 1] == '.';
    } else {
      var e := body[k + 1..];
      assert ExponentSplit(body) == (body[..k], Some(e));
      assert e[j - k - 1] == '.';
      ExponentRejectsPoint(e, j - k - 1);
    }
  }

  /** No special value contains a point either. */
  lemma UnsignedRejectsTwoPoints(negative: bool, body: string, i: nat, j: nat)
    requires i < j < |body| && body[i] == '.' && body[j] == '.'
    ensures ParseUnsigned(negative, body).None?
  {
    var folded := Lower(body);
    assert folded[i] == '.' && folded[j] == '.';
    assert folded != "inf" && folded != "infinity";
    if |body| >= 3 && folded[..3] == "nan" {
      assert j >= 3;
      assert body[3..][j - 3] == '.';
    }
    if |body| >= 4 && folded[..4] == "snan" {
      assert j >= 4;
      assert body[4..][j - 4] == '.';
    }
    FiniteRejectsTwoPoints(negative, body, i, j);
  }

  /** `decimal.Decimal` rejects any text with two decimal points. */
  lemma ParseRejectsTwoPoints(s: string, i: nat, j: nat)
    requires i < j < |s| && s[i] == '.' && s[j] == '.'
    ensures ParseDecimal(s).Err?
  {
    var lead, trail := StripSplits(s);
    var core := Strip(s);
    assert i >= |lead| && j < |lead| + |core|;
    assert core[i - |lead|] == '.' && core[j - |lead|] == '.';
    var a, b := KeepTwo(core, '_', i - |lead|, j - |lead|);
    var t := RemoveChar(core, '_');
    var (negative, body) := SignSplit(t);
    if body == t {
      UnsignedRejectsTwoPoints(negative, body, a, b);
    } else {
      assert a >= 1 && body[a - 1] == '.' && body[b - 1] == '.';
      UnsignedRejectsTwoPoints(negative, body, a - 1, b - 1);
    }
  }

  /** An amount with two commas does not parse: both commas become decimal
      points, and `decimal.Decimal` raises instead of guessing a value. */
  lemma TwoCommasRejected(s: string, i: nat, j: nat)
    requires i < j < |s| && s[i] == ',' && s[j] == ','
    ensures NormalizeValor(Some(s)).Err?
  {
    var a, b := KeepTwo(s, '.', i, j);
    var t := Rewrite(s);
    assert t[a] == '.' && t[b] == '.';
    ParseRejectsTwoPoints(t, a, b);
    assert Some(s).GetOr("0") == s;
  }

  /** A positive decimal with exponent -2 is its coefficient in hundredths. */
  lemma Hundredths(c: nat)
    ensures Value(Finite(false, c, -2)) == c as real / 100.0
  {
    assert Pow10(2) == 100;
  }

  /** A null amount is filled with "0" and normalises to decimal zero. */
  lemma NullAmountIsZero()
    ensures NormalizeValor(None) == Ok(Finite(false, 0, 0))
    ensures Value(Finite(false, 0, 0)) == 0.0
  {
    FormatZero();
    BrazilianRoundTrip(Finite(false, 0, 0));
    assert NormalizeValor(None) == NormalizeValor(Some("0"));
  }

  lemma FormatZero()
    ensures FormatBr(Finite(false, 0, 0)) == "0"
  {
    assert NatDigits(0) == "0";
    assert PadDigits(0, 1) == "0";
  }

  /** The Brazilian rendering of a decimal, with one thousands point put
      back anywhere, still reads back as that decimal. */
  lemma GroupedRoundTrip(d: Decimal, i: nat, text: string)
    requires d.Finite? && d.exponent <= 0
    requires i <= |FormatBr(d)|
    requires text == FormatBr(d)[..i] + "." + FormatBr(d)[i..]
    ensures NormalizeValor(Some(text)) == Ok(d)
  {
    BrazilianRoundTrip(d);
    PointsIgnored(FormatBr(d), i);
  }

  lemma FormatThousands()
    ensures FormatBr(Finite(false, 123456, -2)) == "1234,56"
  {
    assert NatDigits(12) == "12";
    assert NatDigits(123) == "123";
    assert NatDigits(1234) == "1234";
    assert NatDigits(12345) == "12345";
    assert NatDigits(123456) == "123456";
  }

  /** "1.234,56": the thousands point is dropped and the comma becomes the
      decimal point, giving exactly 1234.56. */
  lemma ThousandsExample()
    ensures NormalizeValor(Some("1.234,56")) == Ok(Finite(false, 123456, -2))
    ensures Value(Finite(false, 123456, -2)) == 1234.56
  {
    FormatThousands();
    assert "1.234,56" == "1234,56"[..1] + "." + "1234,56"[1..];
    GroupedRoundTrip(Finite(false, 123456, -2), 1, "1.234,56");
    Hundredths(123456);
  }

  /** "0,5" normalises to exactly one half. */
  lemma HalfExample()
    ensures NormalizeValor(Some("0,5")) == Ok(Finite(false, 5, -1))
    ensures Value(Finite(false, 5, -1)) == 0.5
  {
    assert FormatBr(Finite(false, 5, -1)) == "0,5";
    BrazilianRoundTrip(Finite(false, 5, -1));
    assert Pow10(1) == 10;
  }

  lemma FormatFiveThousand()
    ensures FormatBr(Finite(false, 500000, -2)) == "5000,00"
  {
    assert NatDigits(50) == "50";
    assert NatDigits(500) == "500";
    assert NatDigits(5000) == "5000";
    assert NatDigits(50000) == "50000";
    assert NatDigits(500000) == "500000";
  }

  /** "5.000,00" normalises to 5000.00, keeping its two fraction digits. */
  lemma FiveThousandExample()
    ensures NormalizeValor(Some("5.000,00")) == Ok(Finite(false, 500000, -2))
    ensures Value(Finite(false, 500000, -2)) == 5000.0
  {
    FormatFiveThousand();
    assert "5.000,00" == "5000,00"[..1] + "." + "5000,00"[1..];
    GroupedRoundTrip(Finite(false, 500000, -2), 1, "5.000,00");
    Hundredths(500000);
  }
}
